/**
  The derived curves of `make_plots` in lobster/cmssw/plotting.py: the
  remaining-jobits curve, the wall time each histogram bucket held
  (`integrate_wall`), and the per-bucket and integrated CPU/wall ratios.
*/
module Curves {
  import opened Common

  /** `np.cumsum`: entry k is the sum of the first k + 1 entries. */
  function CumSum(xs: seq<real>): (c: seq<real>)
    ensures |c| == |xs|
  {
    if xs == [] then [] else CumSum(xs[..|xs| - 1]) + [Sum(xs)]
  }

  lemma {:induction false} CumSumAt(xs: seq<real>, k: nat)
    requires k < |xs|
    ensures CumSum(xs)[k] == Sum(xs[..k + 1])
    decreases |xs|
  {
    var n := |xs| - 1;
    if k == n {
      assert xs[..k + 1] == xs;
    } else {
      CumSumAt(xs[..n], k);
      assert xs[..n][..k + 1] == xs[..k + 1];
    }
  }

  /** One more entry adds it to the running total. */
  lemma CumSumStep(xs: seq<real>, k: nat)
    requires 0 < k < |xs|
    ensures CumSum(xs)[k] == CumSum(xs)[k - 1] + xs[k]
  {
    CumSumAt(xs, k);
    CumSumAt(xs, k - 1);
    assert xs[..k + 1][..k] == xs[..k];
  }

  /** The running total of non-negative entries never falls, and of positive entries is positive and rises. */
  lemma CumSumMonotone(xs: seq<real>, k: nat, l: nat)
    requires k <= l < |xs|
    requires forall i :: 0 <= i < |xs| ==> xs[i] >= 0.0
    ensures CumSum(xs)[k] <= CumSum(xs)[l]
    ensures (forall i :: 0 <= i < |xs| ==> xs[i] > 0.0) ==> 0.0 < CumSum(xs)[k] && (k < l ==> CumSum(xs)[k] < CumSum(xs)[l])
    decreases l - k
  {
    if k < l {
      CumSumMonotone(xs, k, l - 1);
      CumSumStep(xs, l);
    } else {
      CumSumAt(xs, k);
      SumBounds(xs[..k + 1], 0.0, Largest(xs));
      if forall i :: 0 <= i < |xs| ==> xs[i] > 0.0 {
        PositiveSum(xs[..k + 1]);
      }
    }
  }

  /** An upper bound of the entries, used for SumBounds. */
  function Largest(xs: seq<real>): (m: real)
    ensures forall i :: 0 <= i < |xs| ==> xs[i] <= m
  {
    if xs == [] then 0.0 else Max(Largest(xs[..|xs| - 1]), xs[|xs| - 1])
  }

  lemma {:induction false} PositiveSum(xs: seq<real>)
    requires |xs| > 0 && forall i :: 0 <= i < |xs| ==> xs[i] > 0.0
    ensures Sum(xs) > 0.0
  {
    var p := xs[..|xs| - 1];
    SumBounds(p, 0.0, Largest(p));
  }

  /**
    The "Jobits remaining" curve: `total_completed * (-1.) + start_jobits`,
    the jobits left after each histogram bucket of completions.
  */
  function Remaining(start: real, completed: seq<real>): (r: seq<real>)
    ensures |r| == |completed|
  {
    var total := CumSum(completed);
    seq(|completed|, k requires 0 <= k < |completed| => total[k] * (-1.0) + start)
  }

  /**
    With non-negative completion counts the remaining curve never rises,
    never exceeds the starting jobits, and ends at the start minus all
    completions.
  */
  lemma RemainingNonIncreasing(start: real, completed: seq<real>)
    requires forall i :: 0 <= i < |completed| ==> completed[i] >= 0.0
    ensures var r := Remaining(start, completed);
            (forall k, l :: 0 <= k <= l < |r| ==> r[l] <= r[k] <= start) &&
            (|r| > 0 ==> r[|r| - 1] == start - Sum(completed))
  {
    var r := Remaining(start, completed);
    forall k, l | 0 <= k <= l < |r|
      ensures r[l] <= r[k] <= start
    {
      CumSumMonotone(completed, k, l);
      CumSumMonotone(completed, 0, k);
      CumSumAt(completed, 0);
      assert completed[..1] == [completed[0]];
      assert Sum([completed[0]]) == Sum([]) + completed[0];
    }
    if |r| > 0 {
      CumSumAt(completed, |r| - 1);
      assert completed[..|r|] == completed;
    }
  }

  /** `np.logical_and(stats[:,0] >= x, stats[:,0] < y)`: the samples taken in [x, y). */
  function InBucket(times: seq<real>, x: real, y: real): (m: seq<bool>)
    ensures |m| == |times| && forall i :: 0 <= i < |times| ==> (m[i] <==> x <= times[i] < y)
  {
    seq(|times|, i requires 0 <= i < |times| => times[i] >= x && times[i] < y)
  }

  /**
    `integrate_wall((x, y))`: the mean number of running tasks sampled in
    [x, y), times the bucket width; 0 when no sample falls in the bucket.
  */
  function IntegrateWall(times: seq<real>, running: seq<real>, x: real, y: real): real
    requires |times| == |running|
  {
    var values := Select(running, InBucket(times, x, y));
    if |values| > 0 then Sum(values) * (y - x) / (|values| as real) else 0.0
  }

  /** A mean lies between the smallest and largest values it averages. */
  lemma MeanBounds(s: real, n: real, lo: real, hi: real)
    requires n > 0.0 && n * lo <= s <= n * hi
    ensures lo <= s / n <= hi
  {
  }

  /** The mean of values within [lo, hi] times a width w > 0 lies within [lo, hi] times w. */
  lemma {:induction false} ScaledMeanBounds(values: seq<real>, w: real, lo: real, hi: real)
    requires |values| > 0 && w > 0.0
    requires forall k :: 0 <= k < |values| ==> lo <= values[k] <= hi
    ensures lo * w <= Sum(values) * w / (|values| as real) <= hi * w
  {
    var n := |values| as real;
    SumBounds(values, lo, hi);
    MeanBounds(Sum(values), n, lo, hi);
    var m := Sum(values) / n;
    assert Sum(values) * w / n == m * w;
    assert lo * w <= m * w <= hi * w;
  }

  /** The running-task samples `integrate_wall` averages for the bucket [x, y). */
  lemma BucketSamples(times: seq<real>, running: seq<real>, x: real, y: real, lo: real, hi: real)
    requires |times| == |running|
    requires forall i :: 0 <= i < |running| ==> lo <= running[i] <= hi
    ensures var values := Select(running, InBucket(times, x, y));
            (forall k :: 0 <= k < |values| ==> lo <= values[k] <= hi) &&
            (|values| > 0 <==> exists i :: 0 <= i < |times| && x <= times[i] < y)
  {
    var mask := InBucket(times, x, y);
    SelectedWithin(running, mask, lo, hi);
    SelectedSome(running, mask);
    if exists i :: 0 <= i < |times| && x <= times[i] < y {
      var i :| 0 <= i < |times| && x <= times[i] < y;
      assert mask[i];
    }
  }

  /** Selecting from values within [lo, hi] keeps only values within [lo, hi]. */
  lemma SelectedWithin(a: seq<real>, mask: seq<bool>, lo: real, hi: real)
    requires |mask| == |a|
    requires forall i :: 0 <= i < |a| ==> lo <= a[i] <= hi
    ensures forall k :: 0 <= k < |Select(a, mask)| ==> lo <= Select(a, mask)[k] <= hi
  {
    var values, ix := Select(a, mask), TrueIndices(mask);
    SelectAt(a, mask);
    forall k | 0 <= k < |values| ensures lo <= values[k] <= hi {
      assert values[k] == a[ix[k]];
    }
  }

  /** A selection is non-empty exactly when the mask has a true entry. */
  lemma SelectedSome(a: seq<real>, mask: seq<bool>)
    requires |mask| == |a|
    ensures |Select(a, mask)| > 0 <==> exists i :: 0 <= i < |mask| && mask[i]
  {
    var ix := TrueIndices(mask);
    SelectAt(a, mask);
    if exists i :: 0 <= i < |mask| && mask[i] {
      var i :| 0 <= i < |mask| && mask[i];
      assert i in ix;
    }
    if |ix| > 0 {
      assert mask[ix[0]];
    }
  }

  /**
    When every sample of the running tasks lies within [lo, hi], the wall
    time of a bucket with samples lies within [lo, hi] times its width; a
    bucket without samples gets 0.
  */
  lemma IntegrateWallBounds(times: seq<real>, running: seq<real>, x: real, y: real, lo: real, hi: real)
    requires |times| == |running| && x < y
    requires forall i :: 0 <= i < |running| ==> lo <= running[i] <= hi
    ensures var w := IntegrateWall(times, running, x, y);
            ((exists i :: 0 <= i < |times| && x <= times[i] < y) ==> lo * (y - x) <= w <= hi * (y - x)) &&
            ((forall i :: 0 <= i < |times| ==> !(x <= times[i] < y)) ==> w == 0.0)
  {
    var values := Select(running, InBucket(times, x, y));
    BucketSamples(times, running, x, y, lo, hi);
    if |values| > 0 {
      ScaledMeanBounds(values, y - x, lo, hi);
    }
  }

  /** `map(integrate_wall, zip(edges[:-1], edges[1:]))`. */
  function WallTimes(times: seq<real>, running: seq<real>, edges: seq<real>): (w: seq<real>)
    requires |times| == |running| && |edges| >= 1
    ensures |w| == |edges| - 1
    ensures forall i :: 0 <= i < |w| ==> w[i] == IntegrateWall(times, running, edges[i], edges[i + 1])
  {
    seq(|edges| - 1, i requires 0 <= i < |edges| - 1 => IntegrateWall(times, running, edges[i], edges[i + 1]))
  }

  /** `cputime[walltime == 0] = 0.`: CPU time of a bucket without wall time is dropped. */
  function AdjustedCpu(cputime: seq<real>, walltime: seq<real>): (c: seq<real>)
    requires |cputime| == |walltime|
    ensures |c| == |cputime|
  {
    seq(|cputime|, i requires 0 <= i < |cputime| => if walltime[i] == 0.0 then 0.0 else cputime[i])
  }

  /** `walltime[walltime == 0] = 1e-6`: a bucket without wall time gets a tiny one. */
  function AdjustedWall(walltime: seq<real>): (w: seq<real>)
    ensures |w| == |walltime|
  {
    seq(|walltime|, i requires 0 <= i < |walltime| => if walltime[i] == 0.0 then 1.0 / 1000000.0 else walltime[i])
  }

  /** The adjusted wall time is never zero, and positive wherever the wall time was non-negative. */
  lemma AdjustedWallPositive(walltime: seq<real>)
    ensures forall i :: 0 <= i < |walltime| ==> AdjustedWall(walltime)[i] != 0.0
    ensures forall i :: 0 <= i < |walltime| && walltime[i] >= 0.0 ==> AdjustedWall(walltime)[i] > 0.0
  {
  }

  /** `np.divide(cputime * 1.0, walltime)` on the adjusted buckets: the CPU/wall curve. */
  function Ratios(cputime: seq<real>, walltime: seq<real>): (r: seq<real>)
    requires |cputime| == |walltime|
    ensures |r| == |cputime|
  {
    var c, w := AdjustedCpu(cputime, walltime), AdjustedWall(walltime);
    AdjustedWallPositive(walltime);
    seq(|cputime|, i requires 0 <= i < |cputime| => c[i] * 1.0 / w[i])
  }

  /**
    A bucket that held no wall time has ratio 0 rather than a division
    fault; any other bucket's ratio times its wall time is its CPU time.
  */
  lemma RatiosMeaning(cputime: seq<real>, walltime: seq<real>, i: nat)
    requires |cputime| == |walltime| && i < |cputime|
    ensures walltime[i] == 0.0 ==> Ratios(cputime, walltime)[i] == 0.0
    ensures walltime[i] != 0.0 ==> Ratios(cputime, walltime)[i] * walltime[i] == cputime[i]
  {
    var r := Ratios(cputime, walltime)[i];
    if walltime[i] != 0.0 {
      assert r == cputime[i] * 1.0 / walltime[i];
      Cancel(cputime[i], walltime[i], r);
    }
  }

  lemma Cancel(c: real, w: real, r: real)
    requires w != 0.0 && r == c * 1.0 / w
    ensures r * w == c
  {
  }

  /** With non-negative wall times every running total of the adjusted wall times is positive. */
  lemma CumWallPositive(walltime: seq<real>)
    requires forall i :: 0 <= i < |walltime| ==> walltime[i] >= 0.0
    ensures forall k :: 0 <= k < |walltime| ==> CumSum(AdjustedWall(walltime))[k] > 0.0
  {
    AdjustedWallPositive(walltime);
    forall k | 0 <= k < |walltime| ensures CumSum(AdjustedWall(walltime))[k] > 0.0 {
      CumSumMonotone(AdjustedWall(walltime), k, k);
    }
  }

  /**
    `np.divide(np.cumsum(cputime) * 1.0, np.cumsum(walltime))` on the
    adjusted buckets: the integrated CPU/wall curve. Wall times are
    non-negative (IntegrateWallBounds with lo = 0), so no running wall
    total is zero (CumWallPositive).
  */
  function Integrated(cputime: seq<real>, walltime: seq<real>): (r: seq<real>)
    requires |cputime| == |walltime|
    requires forall i :: 0 <= i < |walltime| ==> walltime[i] >= 0.0
    ensures |r| == |cputime|
  {
    var c, w := CumSum(AdjustedCpu(cputime, walltime)), CumSum(AdjustedWall(walltime));
    CumWallPositive(walltime);
    seq(|cputime|, i requires 0 <= i < |cputime| => c[i] * 1.0 / w[i])
  }

  /**
    With non-negative wall times the running wall total is positive and
    rising, so the integrated ratio never divides by zero: its value times
    the wall time so far is the CPU time so far.
  */
  lemma IntegratedDefined(cputime: seq<real>, walltime: seq<real>, k: nat)
    requires |cputime| == |walltime| && k < |walltime|
    requires forall i :: 0 <= i < |walltime| ==> walltime[i] >= 0.0
    ensures var w := CumSum(AdjustedWall(walltime));
            w[k] > 0.0 && (k > 0 ==> w[k - 1] < w[k]) &&
            Integrated(cputime, walltime)[k] * w[k] == CumSum(AdjustedCpu(cputime, walltime))[k]
  {
    var aw := AdjustedWall(walltime);
    AdjustedWallPositive(walltime);
    CumWallPositive(walltime);
    if k > 0 {
      CumSumMonotone(aw, k - 1, k);
    }
    var w, c := CumSum(aw), CumSum(AdjustedCpu(cputime, walltime));
    Cancel(c[k], w[k], Integrated(cputime, walltime)[k]);
  }
}
