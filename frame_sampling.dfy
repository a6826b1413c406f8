/** The frames an animated thumbnail shows
    (backend/scripts/generate_thumbnails.py:41, 240, 257-259):
    `np.linspace(0, n - 1, 30, dtype=int)` picks 30 pose rows out of n, and the
    frame loop reads row `qpos_data[idx]` for each pick. */
module FrameSampling {
  import opened Outcomes

  /** TRAJECTORY_FRAMES. */
  const TrajectoryFrames: nat := 30

  /** ANIMATION_DURATION: milliseconds per frame. */
  const AnimationDuration: nat := 100

  /** `np.linspace(0, n - 1, 30, dtype=int)`: pick i is i(n-1)/29 rounded
      toward minus infinity, as numpy has done for integer dtypes since 1.20
      (Dafny's `/` by a positive divisor rounds the same way). The divisions
      are exact here, where numpy's are in floating point. */
  function FrameIndices(n: nat): (r: seq<int>)
    ensures |r| == TrajectoryFrames
  {
    seq(TrajectoryFrames, i requires 0 <= i < TrajectoryFrames => (i * (n - 1)) / (TrajectoryFrames - 1))
  }

  /** The row `qpos_data[idx]` reads: a negative index counts from the end. */
  function RowAt(idx: int, n: nat): nat
    requires -(n as int) <= idx < n
  {
    if idx < 0 then idx + n else idx
  }

  predicate InRange(indices: seq<int>, n: nat) {
    forall k :: 0 <= k < |indices| ==> -(n as int) <= indices[k] < n
  }

  /** The rows the frame loop reads, or None where some `qpos_data[idx]` raises
      IndexError. */
  function FrameRows(indices: seq<int>, n: nat): (r: Option<seq<nat>>)
    ensures r.Some? <==> InRange(indices, n)
    ensures r.Some? ==> |r.value| == |indices| && forall k :: 0 <= k < |indices| ==> r.value[k] < n
  {
    if InRange(indices, n) then Some(seq(|indices|, k requires 0 <= k < |indices| => RowAt(indices[k], n)))
    else None
  }

  lemma DivMonotone(a: int, b: int, d: int)
    requires 0 <= a <= b && d > 0
    ensures a / d <= b / d
  {
    var qa, qb := a / d, b / d;
    if qa > qb {
      MulMonotone(qb + 1, qa, d);
      assert false;
    }
  }

  lemma MulMonotone(i: nat, j: nat, m: nat)
    requires i <= j
    ensures i * m <= j * m
  {
    assert j * m == i * m + (j - i) * m;
  }

  /** For a non-empty trajectory: 30 picks, the first row, the last row, and
      every pick a row that exists. */
  lemma FrameIndicesInBounds(n: nat)
    requires n >= 1
    ensures FrameIndices(n)[0] == 0 && FrameIndices(n)[TrajectoryFrames - 1] == n - 1
    ensures forall k :: 0 <= k < TrajectoryFrames ==> 0 <= FrameIndices(n)[k] <= n - 1
  {
    var r := FrameIndices(n);
    forall k | 0 <= k < TrajectoryFrames ensures 0 <= r[k] <= n - 1 {
      MulMonotone(k, TrajectoryFrames - 1, n - 1);
      DivMonotone(k * (n - 1), (TrajectoryFrames - 1) * (n - 1), TrajectoryFrames - 1);
    }
  }

  /** The picks never go backwards. */
  lemma FrameIndicesNonDecreasing(n: nat)
    requires n >= 1
    ensures forall i, j :: 0 <= i <= j < TrajectoryFrames ==> FrameIndices(n)[i] <= FrameIndices(n)[j]
  {
    var r := FrameIndices(n);
    forall i, j | 0 <= i <= j < TrajectoryFrames ensures r[i] <= r[j] {
      MulMonotone(i, j, n - 1);
      DivMonotone(i * (n - 1), j * (n - 1), TrajectoryFrames - 1);
    }
  }

  /** Consecutive picks are (n-1)/29 rows apart, rounded down or up: the picks
      are evenly spread over the trajectory. */
  lemma FrameIndicesEvenlySpaced(n: nat)
    requires n >= 1
    ensures forall k :: 0 <= k < TrajectoryFrames - 1 ==>
      (n - 1) / (TrajectoryFrames - 1) <= FrameIndices(n)[k + 1] - FrameIndices(n)[k] <= (n - 1) / (TrajectoryFrames - 1) + 1
  {
    var r := FrameIndices(n);
    var d, m := TrajectoryFrames - 1, n - 1;
    forall k | 0 <= k < d
      ensures m / d <= r[k + 1] - r[k] <= m / d + 1
    {
      var a := k * m;
      assert (k + 1) * m == a + m;
      var qa, ra := a / d, a % d;
      var qm, rm := m / d, m % d;
      assert a + m == d * (qa + qm) + (ra + rm);
      if ra + rm < d {
        assert (a + m) / d == qa + qm;
      } else {
        assert (a + m) / d == qa + qm + 1;
      }
    }
  }

  /** With 30 or more rows, no row is shown twice. */
  lemma FrameIndicesDistinctWhenLong(n: nat)
    requires n >= TrajectoryFrames
    ensures forall i, j :: 0 <= i < j < TrajectoryFrames ==> FrameIndices(n)[i] < FrameIndices(n)[j]
  {
    FrameIndicesEvenlySpaced(n);
    var r := FrameIndices(n);
    assert (n - 1) / (TrajectoryFrames - 1) >= 1;
    forall i, j | 0 <= i < j < TrajectoryFrames ensures r[i] < r[j] {
      FrameIndicesNonDecreasing(n);
      assert r[i] < r[i + 1] <= r[j];
    }
  }

  /** With fewer than 30 rows, some row is shown in two consecutive frames. */
  lemma {:induction false} FrameIndicesRepeatWhenShort(n: nat)
    requires 1 <= n < TrajectoryFrames
    ensures exists k :: 0 <= k < TrajectoryFrames - 1 && FrameIndices(n)[k] == FrameIndices(n)[k + 1]
  {
    var r := FrameIndices(n);
    FrameIndicesInBounds(n);
    FrameIndicesNonDecreasing(n);
    if forall k :: 0 <= k < TrajectoryFrames - 1 ==> r[k] != r[k + 1] {
      var k := 0;
      while k < TrajectoryFrames - 1
        invariant 0 <= k <= TrajectoryFrames - 1 && r[k] >= k
      {
        assert r[k] <= r[k + 1] && r[k] != r[k + 1];
        k := k + 1;
      }
      assert false;
    }
  }

  /** For a non-empty trajectory the frame loop reads exactly the picked rows. */
  lemma FrameRowsOfPicks(n: nat)
    requires n >= 1
    ensures FrameRows(FrameIndices(n), n).Some?
    ensures forall k :: 0 <= k < TrajectoryFrames ==> FrameRows(FrameIndices(n), n).value[k] == FrameIndices(n)[k]
  {
    FrameIndicesInBounds(n);
  }

  /** An empty pose sequence fails at the first frame: row 0 does not exist. */
  lemma FrameRowsOfEmpty()
    ensures FrameIndices(0)[0] == 0
    ensures FrameRows(FrameIndices(0), 0).None?
  {
  }
}
