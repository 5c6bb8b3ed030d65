/** `gc_outliers` of utils.py: the GC windows whose z-score reaches a threshold. */
module Outliers {
  import opened Composition

  /** A GC window with the z-score `gc_outliers` adds to its copy. */
  datatype OutlierWindow = OutlierWindow(start: nat, end: nat, gc: real, z: real)

  /** The epsilon `pstdev(arr) or 1e-9` falls back to when every window has the same GC content. */
  const SD_EPSILON: real := 1e-9

  function SumGc(ws: seq<GcWindow>): real
  {
    if ws == [] then 0.0 else SumGc(ws[..|ws| - 1]) + ws[|ws| - 1].gc
  }

  /** `mean(arr)` over the windows' GC values. */
  function Mean(ws: seq<GcWindow>): real
    requires |ws| > 0
  {
    SumGc(ws) / |ws| as real
  }

  function SquaredDeviations(ws: seq<GcWindow>, mu: real): (d: real)
    ensures d >= 0.0
  {
    if ws == [] then 0.0
    else
      var x := ws[|ws| - 1].gc - mu;
      SquaredDeviations(ws[..|ws| - 1], mu) + x * x
  }

  /** `pvariance(arr)`: the population (not sample) variance; `pstdev` is its square root. */
  function PopulationVariance(ws: seq<GcWindow>): real
    requires |ws| > 0
  {
    SquaredDeviations(ws, Mean(ws)) / |ws| as real
  }

  function Abs(x: real): real
  {
    if x < 0.0 then -x else x
  }

  /** `(w["gc"] - mu) / sd`. */
  function ZScore(w: GcWindow, mu: real, sd: real): real
    requires sd != 0.0
  {
    (w.gc - mu) / sd
  }

  predicate IsOutlier(w: GcWindow, mu: real, sd: real, z: real)
    requires sd != 0.0
  {
    Abs(ZScore(w, mu, sd)) >= z
  }

  /** The indices, in ascending order, of the windows the filter keeps. */
  function KeptIndices(ws: seq<GcWindow>, mu: real, sd: real, z: real): (idx: seq<nat>)
    requires sd != 0.0
    ensures forall j :: 0 <= j < |idx| ==> idx[j] < |ws|
    ensures forall j, j' :: 0 <= j < j' < |idx| ==> idx[j] < idx[j']
    ensures forall i :: 0 <= i < |ws| ==> (i in idx <==> IsOutlier(ws[i], mu, sd, z))
  {
    if ws == [] then []
    else
      var n := |ws| - 1;
      KeptIndices(ws[..n], mu, sd, z) + (if IsOutlier(ws[n], mu, sd, z) then [n] else [])
  }

  /** The copy `w2` of a window with its z-score added. */
  function Tag(w: GcWindow, zs: real): OutlierWindow
  {
    OutlierWindow(w.start, w.end, w.gc, zs)
  }

  /** The threshold `gc_outliers` uses when its caller gives none (`z=2.5`). */
  const DEFAULT_Z: real := 2.5

  /**
   * `gc_outliers`: with fewer than three windows, nothing; otherwise, in their original order, a
   * copy (with its z-score) of exactly the windows whose |z| is at least `z`. The square root in
   * `pstdev` is not modelled: the caller passes `pstdev`, the non-negative root of the population
   * variance of the windows' GC values.
   */
  method GcOutliers(windows: seq<GcWindow>, z: real, pstdev: real) returns (out: seq<OutlierWindow>)
    requires |windows| >= 3 ==> pstdev >= 0.0 && pstdev * pstdev == PopulationVariance(windows)
    ensures |windows| < 3 ==> out == []
    ensures |windows| >= 3 ==>
      var mu, sd := Mean(windows), if pstdev == 0.0 then SD_EPSILON else pstdev;
      var idx := KeptIndices(windows, mu, sd, z);
      |out| == |idx| &&
      forall j :: 0 <= j < |out| ==> out[j] == Tag(windows[idx[j]], ZScore(windows[idx[j]], mu, sd))
  {
    if |windows| < 3 {
      return [];
    }
    var mu := Mean(windows);
    var sd := if pstdev == 0.0 then SD_EPSILON else pstdev;
    out := [];
    for i := 0 to |windows|
      invariant var idx := KeptIndices(windows[..i], mu, sd, z);
        |out| == |idx| &&
        forall j :: 0 <= j < |out| ==> out[j] == Tag(windows[idx[j]], ZScore(windows[idx[j]], mu, sd))
    {
      var w := windows[i];
      assert windows[..i + 1][..i] == windows[..i];
      var zsc := ZScore(w, mu, sd);
      if Abs(zsc) >= z {
        out := out + [Tag(w, zsc)];
      }
    }
    assert windows[..|windows|] == windows;
  }
}
