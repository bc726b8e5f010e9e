/**
  Attribution of the CPU time of successful jobs to the time buckets of the
  CPU/wall plot (`make_plots` in lobster/cmssw/plotting.py). A job's CPU
  seconds are spread evenly over its processing interval
  [t_first_ev, t_processing_end], and each bucket [edges[i], edges[i+1]]
  receives the part of the interval that falls into it.
*/
module Attribution {
  import opened Common

  /** The three job columns the loop reads: `t_cpu`, `t_first_ev`, `t_processing_end`. */
  datatype Job = Job(cpu: real, start: real, end: real)

  /** Histogram edges: strictly increasing. */
  predicate Increasing(edges: seq<real>)
  {
    forall i, j :: 0 <= i < j < |edges| ==> edges[i] < edges[j]
  }

  /**
    The length of [start, end] the four-way case analysis of the loop credits
    to the bucket [lo, hi]: inside, covering, ending in, starting in, or
    (none of those) nothing.
  */
  function Fragment(start: real, end: real, lo: real, hi: real): real
  {
    if start >= lo && end < hi then end - start
    else if start < lo && end >= hi then hi - lo
    else if start < lo && end >= lo && end < hi then end - lo
    else if start >= lo && start < hi && end >= hi then hi - start
    else 0.0
  }

  /** The length of the intersection of [start, end] and [lo, hi]. */
  function Overlap(start: real, end: real, lo: real, hi: real): (r: real)
    ensures r >= 0.0
  {
    Max(0.0, Min(end, hi) - Max(start, lo))
  }

  /** For a well-ordered job interval the four cases compute exactly the clipped overlap. */
  lemma FragmentIsOverlap(start: real, end: real, lo: real, hi: real)
    requires start <= end && lo < hi
    ensures Fragment(start, end, lo, hi) == Overlap(start, end, lo, hi)
  {
  }

  /** Overlaps with two adjacent buckets add up to the overlap with their union. */
  lemma OverlapSplit(start: real, end: real, a: real, b: real, c: real)
    requires start <= end && a <= b <= c
    ensures Overlap(start, end, a, b) + Overlap(start, end, b, c) == Overlap(start, end, a, c)
  {
  }

  /** `if end == start or cpu == 0: continue`. */
  predicate Skipped(j: Job)
  {
    j.end == j.start || j.cpu == 0.0
  }

  /** `ratio = cpu * 1. / (end - start)`: CPU seconds per second of processing. */
  function Rate(j: Job): real
    requires !Skipped(j)
  {
    j.cpu / (j.end - j.start)
  }

  /** The lengths of the job's interval the loop credits to each bucket. */
  function Lengths(j: Job, edges: seq<real>): (l: seq<real>)
    requires |edges| >= 1
    ensures |l| == |edges| - 1
    ensures forall i {:trigger l[i]} :: 0 <= i < |l| ==> l[i] == Fragment(j.start, j.end, edges[i], edges[i + 1])
  {
    seq(|edges| - 1, i requires 0 <= i < |edges| - 1 => Fragment(j.start, j.end, edges[i], edges[i + 1]))
  }

  /** Every entry multiplied by r. */
  function Scale(xs: seq<real>, r: real): (ys: seq<real>)
    ensures |ys| == |xs| && forall i {:trigger ys[i]} :: 0 <= i < |xs| ==> ys[i] == xs[i] * r
  {
    seq(|xs|, i requires 0 <= i < |xs| => xs[i] * r)
  }

  /** Scaling every entry scales the sum (ys is the scaled sequence, named so callers can pass their own term for it). */
  lemma {:induction false} ScaleSum(xs: seq<real>, r: real, ys: seq<real>)
    requires ys == Scale(xs, r)
    ensures Sum(ys) == Sum(xs) * r
    decreases |xs|
  {
    if xs != [] {
      var n := |xs| - 1;
      var p := xs[..n];
      forall i | 0 <= i < n ensures ys[..n][i] == Scale(p, r)[i] {
        assert p[i] == xs[i];
      }
      assert ys[..n] == Scale(p, r);
      ScaleSum(p, r, ys[..n]);
      var a, b := Sum(p), xs[n];
      assert Sum(xs) == a + b;
      assert a * r + b * r == (a + b) * r;
    }
  }

  /** What the loop adds to each bucket for job j: `(length) * ratio`. */
  function Shares(j: Job, edges: seq<real>): (s: seq<real>)
    requires !Skipped(j) && |edges| >= 1
    ensures |s| == |edges| - 1
  {
    Scale(Lengths(j, edges), Rate(j))
  }

  /** `wall` after the bucket loop: the CPU seconds the buckets received from j. */
  function Wall(j: Job, edges: seq<real>): real
    requires !Skipped(j) && |edges| >= 1
  {
    Sum(Shares(j, edges))
  }

  /** The buckets together receive the total credited length at the job's rate. */
  lemma WallScaled(j: Job, edges: seq<real>)
    requires !Skipped(j) && |edges| >= 1
    ensures Wall(j, edges) == Sum(Lengths(j, edges)) * Rate(j)
  {
    var l, r := Lengths(j, edges), Rate(j);
    calc {
      Wall(j, edges);
      Sum(Shares(j, edges));
      { ScaleSum(l, r, Shares(j, edges)); }
      Sum(l) * r;
    }
  }

  /**
    The diagnostic `abs(wall - cpu)/cpu > 0.1`, stated without the division
    (DeviationTest): the job has positive CPU time and the buckets received
    more than a tenth of it too much or too little.
  */
  predicate Flags(j: Job, edges: seq<real>)
    requires |edges| >= 1
  {
    !Skipped(j) && j.cpu > 0.0 && Abs(Wall(j, edges) - j.cpu) > j.cpu / 10.0
  }

  /** The relative deviation exceeds 0.1 exactly when the CPU time is positive and the absolute deviation exceeds a tenth of it. */
  lemma DeviationTest(wall: real, cpu: real)
    requires cpu != 0.0
    ensures Abs(wall - cpu) / cpu > 0.1 <==> cpu > 0.0 && Abs(wall - cpu) > cpu / 10.0
  {
    var d := Abs(wall - cpu);
    var q := d / cpu;
    assert q * cpu == d;
    if cpu > 0.0 {
      assert q > 0.1 ==> q * cpu > 0.1 * cpu;
      assert q <= 0.1 ==> q * cpu <= 0.1 * cpu;
    } else {
      assert q <= 0.0;
    }
  }

  function Zeros(n: nat): (z: seq<real>)
    ensures |z| == n && forall i :: 0 <= i < n ==> z[i] == 0.0
  {
    seq(n, _ => 0.0)
  }

  /** Element-wise sum of two bucket vectors. */
  function Plus(a: seq<real>, b: seq<real>): (c: seq<real>)
    requires |a| == |b|
    ensures |c| == |a| && forall i :: 0 <= i < |a| ==> c[i] == a[i] + b[i]
  {
    seq(|a|, i requires 0 <= i < |a| => a[i] + b[i])
  }

  /** What job j adds to the buckets: nothing when it is skipped. */
  function Contribution(j: Job, edges: seq<real>): (c: seq<real>)
    requires |edges| >= 1
    ensures |c| == |edges| - 1
  {
    if Skipped(j) then Zeros(|edges| - 1) else Shares(j, edges)
  }

  /** `cputime` after the loop has processed the given jobs. */
  function Attributed(edges: seq<real>, jobs: seq<Job>): (c: seq<real>)
    requires |edges| >= 1
    ensures |c| == |edges| - 1
  {
    if jobs == [] then Zeros(|edges| - 1)
    else Plus(Attributed(edges, jobs[..|jobs| - 1]), Contribution(jobs[|jobs| - 1], edges))
  }

  lemma {:induction false} LengthsPrefixSum(j: Job, edges: seq<real>, k: nat)
    requires Increasing(edges) && j.start <= j.end && 1 <= k <= |edges|
    ensures Sum(Lengths(j, edges)[..k - 1]) == Overlap(j.start, j.end, edges[0], edges[k - 1])
  {
    var l := Lengths(j, edges);
    if k == 1 {
      assert l[..0] == [];
    } else {
      LengthsPrefixSum(j, edges, k - 1);
      var a, b, c := edges[0], edges[k - 2], edges[k - 1];
      assert a <= b < c;
      assert l[..k - 1][..k - 2] == l[..k - 2];
      FragmentIsOverlap(j.start, j.end, b, c);
      OverlapSplit(j.start, j.end, a, b, c);
      assert Sum(l[..k - 1]) == Sum(l[..k - 2]) + l[k - 2];
    }
  }

  /**
    The lengths credited to all buckets add up to the part of the job's
    processing interval that lies between the first and the last edge.
  */
  lemma LengthsTotal(j: Job, edges: seq<real>)
    requires Increasing(edges) && |edges| >= 1 && j.start <= j.end
    ensures Sum(Lengths(j, edges)) == Overlap(j.start, j.end, edges[0], edges[|edges| - 1])
  {
    var l := Lengths(j, edges);
    LengthsPrefixSum(j, edges, |edges|);
    assert l[..|edges| - 1] == l;
  }

  /** A job within the edges is credited its whole processing interval. */
  lemma InsideLength(j: Job, edges: seq<real>)
    requires Increasing(edges) && |edges| >= 1
    requires edges[0] <= j.start <= j.end <= edges[|edges| - 1]
    ensures Sum(Lengths(j, edges)) == j.end - j.start
  {
    LengthsTotal(j, edges);
  }

  /** A job that processed only outside the edges is credited nothing. */
  lemma OutsideLength(j: Job, edges: seq<real>)
    requires Increasing(edges) && |edges| >= 1 && j.start <= j.end
    requires j.end <= edges[0] || j.start >= edges[|edges| - 1]
    ensures Sum(Lengths(j, edges)) == 0.0
  {
    LengthsTotal(j, edges);
  }

  /** The whole processing interval at the job's rate is its CPU time; no length gives nothing. */
  lemma RateTimes(j: Job, x: real)
    requires !Skipped(j) && (x == j.end - j.start || x == 0.0)
    ensures x * Rate(j) == (if x == 0.0 then 0.0 else j.cpu)
  {
  }

  /** A job credited the length of its whole processing interval is attributed its CPU time. */
  lemma FullCredit(j: Job, edges: seq<real>)
    requires |edges| >= 1 && !Skipped(j) && Sum(Lengths(j, edges)) == j.end - j.start
    ensures Wall(j, edges) == j.cpu
  {
    WallScaled(j, edges);
    RateTimes(j, Sum(Lengths(j, edges)));
  }

  /** A job credited no length is attributed nothing. */
  lemma NoCredit(j: Job, edges: seq<real>)
    requires |edges| >= 1 && !Skipped(j) && Sum(Lengths(j, edges)) == 0.0
    ensures Wall(j, edges) == 0.0
  {
    WallScaled(j, edges);
    RateTimes(j, Sum(Lengths(j, edges)));
  }

  /** A job whose processing interval lies within the edges is attributed its CPU time exactly. */
  lemma InsideWall(j: Job, edges: seq<real>)
    requires Increasing(edges) && |edges| >= 1 && !Skipped(j)
    requires edges[0] <= j.start <= j.end <= edges[|edges| - 1]
    ensures Wall(j, edges) == j.cpu
  {
    InsideLength(j, edges);
    FullCredit(j, edges);
  }

  /** A job that processed only outside the edges is attributed nothing. */
  lemma OutsideWall(j: Job, edges: seq<real>)
    requires Increasing(edges) && |edges| >= 1 && j.start < j.end && !Skipped(j)
    requires j.end <= edges[0] || j.start >= edges[|edges| - 1]
    ensures Wall(j, edges) == 0.0
  {
    OutsideLength(j, edges);
    NoCredit(j, edges);
  }

  /**
    A job whose processing interval lies within the edges, with positive CPU
    time, is never reported by the deviation diagnostic.
  */
  lemma InsideConserves(j: Job, edges: seq<real>)
    requires Increasing(edges) && |edges| >= 1 && j.cpu > 0.0 && j.start < j.end
    requires edges[0] <= j.start <= j.end <= edges[|edges| - 1]
    ensures !Flags(j, edges)
  {
    InsideWall(j, edges);
  }

  /**
    A job with positive CPU time that processed only outside the edges is
    attributed nothing, which the diagnostic flags.
  */
  lemma OutsideFlags(j: Job, edges: seq<real>)
    requires Increasing(edges) && |edges| >= 1 && j.cpu > 0.0 && j.start < j.end
    requires j.end <= edges[0] || j.start >= edges[|edges| - 1]
    ensures Flags(j, edges)
  {
    OutsideWall(j, edges);
  }

  /**
    A job running past the last edge: edges [0, 10] and a job with one CPU
    second over [5, 20] gets a third of a second, and is flagged.
  */
  lemma StragglerFlags()
    ensures Wall(Job(1.0, 5.0, 20.0), [0.0, 10.0]) == 1.0 / 3.0
    ensures Flags(Job(1.0, 5.0, 20.0), [0.0, 10.0])
  {
    var j, edges := Job(1.0, 5.0, 20.0), [0.0, 10.0];
    LengthsTotal(j, edges);
    WallScaled(j, edges);
    assert Sum(Lengths(j, edges)) == 5.0;
    assert Rate(j) == 1.0 / 15.0;
  }

  /** The CPU seconds the loop credits to the buckets for the given jobs: each job's `wall`. */
  function Credited(edges: seq<real>, jobs: seq<Job>): real
    requires |edges| >= 1
  {
    if jobs == [] then 0.0
    else
      var j := jobs[|jobs| - 1];
      Credited(edges, jobs[..|jobs| - 1]) + if Skipped(j) then 0.0 else Wall(j, edges)
  }

  /** The CPU seconds of the jobs the loop does not skip. */
  function CpuTotal(jobs: seq<Job>): real
  {
    if jobs == [] then 0.0
    else
      var j := jobs[|jobs| - 1];
      CpuTotal(jobs[..|jobs| - 1]) + if Skipped(j) then 0.0 else j.cpu
  }

  /** Together the buckets hold exactly the `wall` values of the jobs, nothing lost and nothing added. */
  lemma {:induction false} AttributedTotal(edges: seq<real>, jobs: seq<Job>)
    requires |edges| >= 1
    ensures Sum(Attributed(edges, jobs)) == Credited(edges, jobs)
  {
    if jobs == [] {
      ZerosSum(|edges| - 1);
    } else {
      var p, j := jobs[..|jobs| - 1], jobs[|jobs| - 1];
      AttributedTotal(edges, p);
      PlusSum(Attributed(edges, p), Contribution(j, edges));
      if Skipped(j) {
        ZerosSum(|edges| - 1);
      }
    }
  }

  lemma {:induction false} ZerosSum(n: nat)
    ensures Sum(Zeros(n)) == 0.0
  {
    if n > 0 {
      assert Zeros(n)[..n - 1] == Zeros(n - 1);
      ZerosSum(n - 1);
    }
  }

  lemma {:induction false} PlusSum(a: seq<real>, b: seq<real>)
    requires |a| == |b|
    ensures Sum(Plus(a, b)) == Sum(a) + Sum(b)
    decreases |a|
  {
    if a != [] {
      var n := |a| - 1;
      assert Plus(a, b)[..n] == Plus(a[..n], b[..n]);
      PlusSum(a[..n], b[..n]);
    }
  }

  /**
    Conservation: when every job processed within the edges, the buckets
    together hold the CPU time of all jobs the loop does not skip.
  */
  lemma {:induction false} AttributedConserves(edges: seq<real>, jobs: seq<Job>)
    requires Increasing(edges) && |edges| >= 1
    requires forall k :: 0 <= k < |jobs| ==> edges[0] <= jobs[k].start <= jobs[k].end <= edges[|edges| - 1]
    ensures Sum(Attributed(edges, jobs)) == CpuTotal(jobs)
  {
    CreditedConserves(edges, jobs);
    AttributedTotal(edges, jobs);
  }

  lemma {:induction false} CreditedConserves(edges: seq<real>, jobs: seq<Job>)
    requires Increasing(edges) && |edges| >= 1
    requires forall k :: 0 <= k < |jobs| ==> edges[0] <= jobs[k].start <= jobs[k].end <= edges[|edges| - 1]
    ensures Credited(edges, jobs) == CpuTotal(jobs)
  {
    if jobs != [] {
      var p, j := jobs[..|jobs| - 1], jobs[|jobs| - 1];
      CreditedConserves(edges, p);
      if !Skipped(j) {
        InsideWall(j, edges);
      }
    }
  }

  /**
    The bucket loop for one job that is not skipped: adds the job's share to
    every bucket of `cputime` and returns `wall`, the sum of the shares.
  */
  method AttributeJob(cputime: array<real>, edges: seq<real>, j: Job) returns (wall: real)
    requires !Skipped(j) && |edges| >= 1 && cputime.Length == |edges| - 1
    modifies cputime
    ensures cputime[..] == Plus(old(cputime[..]), Shares(j, edges))
    ensures wall == Wall(j, edges)
  {
    var ratio := j.cpu * 1.0 / (j.end - j.start);
    assert ratio == Rate(j);
    wall := AddShares(cputime, edges, j.start, j.end, ratio, Shares(j, edges));
  }

  /**
    The loop over the buckets at a given ratio: bucket i receives the length
    the case analysis credits to it, times the ratio (the ghost `shares`),
    and `wall` is their sum.
  */
  method AddShares(cputime: array<real>, edges: seq<real>, start: real, end: real, ratio: real, ghost shares: seq<real>)
    returns (wall: real)
    requires |edges| >= 1 && cputime.Length == |edges| - 1 == |shares|
    requires forall k {:trigger edges[k]} :: 0 <= k < |shares| ==> shares[k] == Fragment(start, end, edges[k], edges[k + 1]) * ratio
    modifies cputime
    ensures cputime[..] == Plus(old(cputime[..]), shares)
    ensures wall == Sum(shares)
  {
    wall := 0.0;
    var i := 0;
    while i < |edges| - 1
      invariant 0 <= i <= |edges| - 1
      invariant forall k :: 0 <= k < i ==> cputime[k] == old(cputime[k]) + shares[k]
      invariant forall k :: i <= k < cputime.Length ==> cputime[k] == old(cputime[k])
      invariant wall == PartialSum(shares, i)
    {
      var share := BucketShare(start, end, edges[i], edges[i + 1], ratio);
      cputime[i] := cputime[i] + share;
      wall := wall + share;
      i := i + 1;
    }
    PartialSumIsSum(shares);
  }

  /**
    One pass of the bucket loop: the four-way case analysis for the bucket
    [lo, hi], then `(length) * ratio`.
  */
  method BucketShare(start: real, end: real, lo: real, hi: real, ratio: real) returns (share: real)
    ensures share == Fragment(start, end, lo, hi) * ratio
  {
    var length := 0.0;
    if start >= lo && end < hi {
      length := end - start;
    } else if start < lo && end >= hi {
      length := hi - lo;
    } else if start < lo && end >= lo && end < hi {
      length := end - lo;
    } else if start >= lo && start < hi && end >= hi {
      length := hi - start;
    }
    share := length * ratio;
  }

  /** The test the loop applies to its `wall` is the diagnostic. */
  lemma FlagTest(j: Job, edges: seq<real>, wall: real)
    requires |edges| >= 1 && !Skipped(j) && wall == Wall(j, edges)
    ensures Flags(j, edges) <==> Abs(wall - j.cpu) / j.cpu > 0.1
  {
    DeviationTest(wall, j.cpu);
  }

  /**
    One pass of the job loop: a skipped job changes nothing; otherwise its
    shares are added to the buckets and the loop's test on `wall` decides
    whether the diagnostic reports it.
  */
  method TakeJob(cputime: array<real>, edges: seq<real>, j: Job) returns (flagged: bool)
    requires |edges| >= 1 && cputime.Length == |edges| - 1
    modifies cputime
    ensures cputime[..] == Plus(old(cputime[..]), Contribution(j, edges))
    ensures flagged == Flags(j, edges)
  {
    var cpu, start, end := j.cpu, j.start, j.end;
    if end == start || cpu == 0.0 {
      assert Plus(cputime[..], Zeros(cputime.Length)) == cputime[..];
      return false;
    }
    var wall := AttributeJob(cputime, edges, j);
    FlagTest(j, edges, wall);
    flagged := Abs(wall - cpu) / cpu > 0.1;
  }

  /** One more job: its contribution is added to the buckets of the jobs before it. */
  lemma AttributedStep(edges: seq<real>, jobs: seq<Job>, k: nat)
    requires |edges| >= 1 && k < |jobs|
    ensures Attributed(edges, jobs[..k + 1]) == Plus(Attributed(edges, jobs[..k]), Contribution(jobs[k], edges))
  {
    assert jobs[..k + 1][..k] == jobs[..k];
  }

  /** Positions up to k + 1 of a mask: those up to k, then k if it is marked. */
  lemma TrueIndicesStep(mask: seq<bool>, k: nat)
    requires k < |mask|
    ensures TrueIndices(mask[..k + 1]) == TrueIndices(mask[..k]) + if mask[k] then [k] else []
  {
    assert mask[..k + 1][..k] == mask[..k];
  }

  /** Some job of the sequence is reported by the deviation diagnostic. */
  predicate AnyFlagged(edges: seq<real>, jobs: seq<Job>)
    requires |edges| >= 1
  {
    exists k :: 0 <= k < |jobs| && Flags(jobs[k], edges)
  }

  /** One more job: the prefix has a flagged job when the shorter one has, or the new job is flagged. */
  lemma AnyFlaggedStep(edges: seq<real>, jobs: seq<Job>, k: nat)
    requires |edges| >= 1 && k < |jobs|
    ensures AnyFlagged(edges, jobs[..k + 1]) <==> AnyFlagged(edges, jobs[..k]) || Flags(jobs[k], edges)
  {
    var p, q := jobs[..k], jobs[..k + 1];
    if AnyFlagged(edges, q) && !Flags(jobs[k], edges) {
      var m :| 0 <= m < |q| && Flags(q[m], edges);
      assert p[m] == q[m];
    }
    if AnyFlagged(edges, p) {
      var m :| 0 <= m < |p| && Flags(p[m], edges);
      assert q[m] == p[m];
    }
    if Flags(jobs[k], edges) {
      assert q[k] == jobs[k];
    }
  }

  /**
    The attribution loop as written: at the first job the diagnostic flags,
    `.format` is applied to the `None` returned by `logger.debug`, which
    raises AttributeError; otherwise the buckets as the jobs filled them.
  */
  method AttributeCpuAsWritten(edges: seq<real>, jobs: seq<Job>) returns (r: Result<seq<real>>)
    requires |edges| >= 1
    ensures r.Err? <==> AnyFlagged(edges, jobs)
    ensures r.Err? ==> r.error == AttributeError
    ensures r.Ok? ==> r.value == Attributed(edges, jobs)
  {
    var cputime := new real[|edges| - 1](_ => 0.0);
    var k := 0;
    assert jobs[..0] == [];
    while k < |jobs|
      invariant 0 <= k <= |jobs|
      invariant cputime[..] == Attributed(edges, jobs[..k])
      invariant !AnyFlagged(edges, jobs[..k])
    {
      AttributedStep(edges, jobs, k);
      AnyFlaggedStep(edges, jobs, k);
      var flagged := TakeJob(cputime, edges, jobs[k]);
      if flagged {
        FlaggedPrefix(edges, jobs, k + 1);
        return Err(AttributeError);
      }
      k := k + 1;
    }
    assert jobs[..k] == jobs;
    return Ok(cputime[..]);
  }

  /** A flagged job in a prefix is a flagged job of the whole sequence. */
  lemma FlaggedPrefix(edges: seq<real>, jobs: seq<Job>, n: nat)
    requires |edges| >= 1 && n <= |jobs| && AnyFlagged(edges, jobs[..n])
    ensures AnyFlagged(edges, jobs)
  {
    var m :| 0 <= m < n && Flags(jobs[..n][m], edges);
    assert jobs[..n][m] == jobs[m];
  }

  /**
    The attribution loop with the diagnostic only logged: the buckets as the
    jobs filled them, and the positions of the jobs it reports, in ascending
    order.
  */
  method AttributeCpu(edges: seq<real>, jobs: seq<Job>) returns (cputime: seq<real>, flagged: seq<nat>)
    requires |edges| >= 1
    ensures cputime == Attributed(edges, jobs)
    ensures forall m :: m in flagged <==> 0 <= m < |jobs| && Flags(jobs[m], edges)
    ensures forall a, b :: 0 <= a < b < |flagged| ==> flagged[a] < flagged[b]
  {
    ghost var marks := seq(|jobs|, m requires 0 <= m < |jobs| => Flags(jobs[m], edges));
    var buckets := new real[|edges| - 1](_ => 0.0);
    flagged := [];
    var k := 0;
    while k < |jobs|
      invariant 0 <= k <= |jobs|
      invariant buckets[..] == Attributed(edges, jobs[..k])
      invariant flagged == TrueIndices(marks[..k])
    {
      AttributedStep(edges, jobs, k);
      TrueIndicesStep(marks, k);
      var report := TakeJob(buckets, edges, jobs[k]);
      if report {
        flagged := flagged + [k];
      }
      k := k + 1;
    }
    assert jobs[..k] == jobs;
    assert marks[..k] == marks;
    cputime := buckets[..];
  }
}
