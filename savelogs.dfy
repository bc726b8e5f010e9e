/**
  The bookkeeping of `savelogs` in lobster/cmssw/plotting.py: failed jobs are
  grouped by exit code; for each code the last `samples` jobs are sampled and
  each sampled job lists the log files it has, minus those whose unpacking
  failed; each code's job table is then padded with placeholder keys 0, -1,
  -2, ... up to `samples` entries. The file system (does a job's failed
  directory exist, does a log file exist, does unpacking succeed) is given
  as three oracles.
*/
module SampleLogs {
  import opened Common
  import opened Grouping

  /** A row of `failed_jobs[['id', 'exit_code']]`. */
  datatype FailedJob = FailedJob(id: int, exitCode: int)

  /** `codes[exit_code]`: `[len(jobs), {id: [log names]}]`. */
  datatype Entry = Entry(count: nat, logs: map<int, seq<string>>)

  /** An element of `work`: exit code, job id and unpacked log name. */
  datatype Work = Work(code: int, id: int, file: string)

  function ExitCode(j: FailedJob): int { j.exitCode }

  /** The compressed logs looked for in a job's failed directory. */
  const Sources: seq<string> := ["cmssw.log.gz", "job.log.gz"]

  /** `l[:-3]`: the name without `.gz`. */
  function Stripped(l: string): (s: string)
    requires |l| >= 3
    ensures |s| == |l| - 3
  {
    l[..|l| - 3]
  }

  lemma StrippedSources()
    ensures Stripped(Sources[0]) == "cmssw.log" && Stripped(Sources[1]) == "job.log"
  {
  }

  /** The unpacked log names, in the order of Sources, of those that are listed. */
  function LogNames(cmssw: bool, job: bool): seq<string>
  {
    (if cmssw then ["cmssw.log"] else []) + (if job then ["job.log"] else [])
  }

  lemma LogNamesHas(cmssw: bool, job: bool)
    ensures "cmssw.log" in LogNames(cmssw, job) <==> cmssw
    ensures "job.log" in LogNames(cmssw, job) <==> job
    ensures forall f :: f in LogNames(cmssw, job) ==> (f == "cmssw.log" && cmssw) || (f == "job.log" && job)
  {
  }

  /** `list.remove`: the first occurrence of f taken out. */
  function Remove(xs: seq<string>, f: string): seq<string>
    requires f in xs
  {
    if xs[0] == f then xs[1..] else [xs[0]] + Remove(xs[1..], f)
  }

  /** Removing a listed name leaves the other. */
  lemma RemoveLogName(cmssw: bool, job: bool, f: string)
    requires (f == "cmssw.log" && cmssw) || (f == "job.log" && job)
    ensures f in LogNames(cmssw, job)
    ensures Remove(LogNames(cmssw, job), f) == LogNames(cmssw && f != "cmssw.log", job && f != "job.log")
  {
    if f == "job.log" && cmssw {
      assert LogNames(cmssw, job)[1..] == ["job.log"];
    }
  }

  /** Where the slice `jobs[-samples:]` of n jobs starts, with Python's rules for negative and zero bounds. */
  function SliceStart(n: nat, samples: int): (s: nat)
    ensures s <= n
  {
    if samples > 0 then (if samples >= n then 0 else n - samples)
    else if samples == 0 then 0
    else (if -samples >= n then n else -samples)
  }

  /** `jobs[-samples:]`. */
  function LastJobs(jobs: seq<FailedJob>, samples: int): seq<FailedJob>
  {
    jobs[SliceStart(|jobs|, samples)..]
  }

  /**
    The sample is the last `samples` jobs, or all of them when there are
    fewer; `samples == 0` takes every job, since `jobs[-0:]` is `jobs[0:]`.
  */
  lemma LastJobsSize(jobs: seq<FailedJob>, samples: int)
    ensures samples > 0 ==> |LastJobs(jobs, samples)| == (if samples < |jobs| then samples else |jobs|)
    ensures samples == 0 ==> LastJobs(jobs, samples) == jobs
    ensures LastJobs(jobs, samples) == jobs[|jobs| - |LastJobs(jobs, samples)|..]
  {
  }

  function Ids(jobs: seq<FailedJob>): set<int>
  {
    set x | x in jobs :: x.id
  }

  /** After unpacking: the logs a job lists are those present whose unpacking succeeded. */
  function Listed(id: int, present: (int, string) -> bool, unpacks: (int, string) -> bool): seq<string>
  {
    LogNames(present(id, Sources[0]) && unpacks(id, "cmssw.log"), present(id, Sources[1]) && unpacks(id, "job.log"))
  }

  /** The job table after `logs[-i] = []` for i in range(n), in that order. */
  function PadFrom(logs: map<int, seq<string>>, n: int): map<int, seq<string>>
    decreases n
  {
    if n <= 0 then logs else PadFrom(logs, n - 1)[-(n - 1) := []]
  }

  /** A job table padded with placeholders up to `samples` entries (counting the jobs already in it). */
  function Padded(logs: map<int, seq<string>>, samples: int): map<int, seq<string>>
  {
    PadFrom(logs, samples - |logs|)
  }

  /** The entry `savelogs` returns for the jobs of one exit code. */
  function Expected(jobs: seq<FailedJob>, samples: int, present: (int, string) -> bool, unpacks: (int, string) -> bool): Entry
  {
    var sampled := map id | id in Ids(LastJobs(jobs, samples)) :: Listed(id, present, unpacks);
    Entry(|jobs|, Padded(sampled, samples))
  }

  /** Some sampled job has no failed directory, so `glob(...)[0]` raises IndexError. */
  predicate MissingDir(failed: seq<FailedJob>, samples: int, hasDir: int -> bool)
  {
    exists x :: x in failed && x in LastJobs(RowsWith(failed, ExitCode, x.exitCode), samples) && !hasDir(x.id)
  }

  /** What `savelogs(failed_jobs, samples)` returns, or the error it raises. */
  function SaveLogsSpec(failed: seq<FailedJob>, samples: int, hasDir: int -> bool,
                        present: (int, string) -> bool, unpacks: (int, string) -> bool): Result<map<int, Entry>>
  {
    if MissingDir(failed, samples, hasDir) then Err(IndexError)
    else Ok(ExpectedCodes(failed, samples, present, unpacks))
  }

  /** The table `savelogs` returns when every sampled job has a failed directory. */
  function ExpectedCodes(failed: seq<FailedJob>, samples: int, present: (int, string) -> bool,
                         unpacks: (int, string) -> bool): map<int, Entry>
  {
    map c | c in Values(failed, ExitCode) :: Expected(RowsWith(failed, ExitCode, c), samples, present, unpacks)
  }

  /** `id` is the key of the job table. */
  predicate DistinctIds(jobs: seq<FailedJob>)
  {
    forall i, j :: 0 <= i < j < |jobs| ==> jobs[i].id != jobs[j].id
  }

  /** The log names a sampled job lists before unpacking: those whose source exists. */
  function Found(id: int, present: (int, string) -> bool): seq<string>
  {
    LogNames(present(id, Sources[0]), present(id, Sources[1]))
  }

  /** The job table of one exit code before unpacking: every sampled job with the logs found for it. */
  function Collected(sample: seq<FailedJob>, present: (int, string) -> bool): map<int, seq<string>>
  {
    if sample == [] then map[]
    else Collected(sample[..|sample| - 1], present)[sample[|sample| - 1].id := Found(sample[|sample| - 1].id, present)]
  }

  /** Every sampled job is listed, with the logs found for it. */
  lemma {:induction false} CollectedLists(sample: seq<FailedJob>, present: (int, string) -> bool)
    ensures Collected(sample, present).Keys == Ids(sample)
    ensures forall id :: id in Ids(sample) ==> Collected(sample, present)[id] == Found(id, present)
  {
    if sample != [] {
      var p := sample[..|sample| - 1];
      CollectedLists(p, present);
      assert sample == p + [sample[|sample| - 1]];
      assert Ids(sample) == Ids(p) + {sample[|sample| - 1].id};
    }
  }

  /** The exit codes of the first g groups. */
  function CodesOf(groups: seq<(int, seq<FailedJob>)>, g: nat): set<int>
    requires g <= |groups|
  {
    if g == 0 then {} else CodesOf(groups, g - 1) + {groups[g - 1].0}
  }

  /** The entry a group's sampling loop leaves in `codes`. */
  function GroupEntry(jobs: seq<FailedJob>, samples: int, present: (int, string) -> bool): Entry
  {
    Entry(|jobs|, Collected(LastJobs(jobs, samples), present))
  }

  /** `codes` after the sampling loop: one entry per exit code. */
  function Sampled(failed: seq<FailedJob>, samples: int, present: (int, string) -> bool): map<int, Entry>
  {
    map c | c in Values(failed, ExitCode) :: GroupEntry(RowsWith(failed, ExitCode, c), samples, present)
  }

  /** Some element of ws is for this job and log. */
  predicate Has(ws: seq<Work>, id: int, f: string)
  {
    exists a :: 0 <= a < |ws| && ws[a].id == id && ws[a].file == f
  }

  /**
    What the pruning loop relies on: every work item names a log its job
    lists, no job and log occur twice, every listed log has an item, and no
    job is listed under two exit codes.
  */
  predicate WorkFor(work: seq<Work>, codes: map<int, Entry>)
  {
    (forall a :: 0 <= a < |work| ==>
       work[a].code in codes && work[a].id in codes[work[a].code].logs &&
       work[a].file in codes[work[a].code].logs[work[a].id]) &&
    (forall a, b :: 0 <= a < b < |work| ==> !(work[a].id == work[b].id && work[a].file == work[b].file)) &&
    (forall c, id, f :: c in codes && id in codes[c].logs && f in codes[c].logs[id] ==> Has(work, id, f)) &&
    (forall c, d, id :: c in codes && d in codes && id in codes[c].logs && id in codes[d].logs ==> c == d)
  }

  lemma {:induction false} RowsWithDistinct(a: seq<FailedJob>, v: int)
    requires DistinctIds(a)
    ensures DistinctIds(RowsWith(a, ExitCode, v))
  {
    if a != [] {
      var p := a[..|a| - 1];
      var x := a[|a| - 1];
      assert a == p + [x];
      RowsWithDistinct(p, v);
      var r := RowsWith(p, ExitCode, v);
      if x.exitCode == v {
        forall y | y in r ensures y.id != x.id {
          var i :| 0 <= i < |p| && p[i] == y;
          assert a[i] == y;
        }
      }
    }
  }

  /** The exit code of the row with this id, if any (the last such row). */
  function CodeOf(failed: seq<FailedJob>, id: int): Option<int>
  {
    if failed == [] then None
    else if failed[|failed| - 1].id == id then Some(failed[|failed| - 1].exitCode)
    else CodeOf(failed[..|failed| - 1], id)
  }

  lemma {:induction false} CodeOfRow(failed: seq<FailedJob>, x: FailedJob)
    requires DistinctIds(failed) && x in failed
    ensures CodeOf(failed, x.id) == Some(x.exitCode)
  {
    var p := failed[..|failed| - 1];
    if failed[|failed| - 1] != x {
      assert x in p;
      CodeOfRow(p, x);
    }
  }

  /** Every job is listed only under its own exit code. */
  predicate Owned(codes: map<int, Entry>, failed: seq<FailedJob>)
  {
    forall c, id :: c in codes && id in codes[c].logs ==> CodeOf(failed, id) == Some(c)
  }

  lemma OwnedNewCode(codes: map<int, Entry>, failed: seq<FailedJob>, code: int, count: nat)
    requires Owned(codes, failed)
    ensures Owned(codes[code := Entry(count, map[])], failed)
  {
  }

  lemma OwnedStep(codes: map<int, Entry>, failed: seq<FailedJob>, code: int, id: int, v: seq<string>)
    requires Owned(codes, failed) && code in codes && CodeOf(failed, id) == Some(code)
    ensures Owned(codes[code := Entry(codes[code].count, codes[code].logs[id := v])], failed)
  {
  }

  /** A job of this code that the code does not list yet is listed nowhere. */
  lemma OwnedFresh(codes: map<int, Entry>, failed: seq<FailedJob>, code: int, id: int)
    requires Owned(codes, failed) && code in codes && CodeOf(failed, id) == Some(code) && id !in codes[code].logs
    ensures forall c :: c in codes ==> id !in codes[c].logs
  {
  }

  /** The next sampled job is not among those listed before it. */
  lemma SampleFresh(sample: seq<FailedJob>, s: nat, present: (int, string) -> bool)
    requires DistinctIds(sample) && s < |sample|
    ensures sample[s].id !in Collected(sample[..s], present)
  {
    CollectedLists(sample[..s], present);
  }

  lemma UpdateTwice<K, V>(m: map<K, V>, k: K, a: V, b: V)
    ensures m[k := a][k := b] == m[k := b]
  {
  }

  /** Listing a new job with no logs yet keeps the work list consistent. */
  lemma WorkForFresh(work: seq<Work>, codes: map<int, Entry>, code: int, id: int)
    requires WorkFor(work, codes) && code in codes
    requires forall c :: c in codes ==> id !in codes[c].logs
    ensures WorkFor(work, codes[code := Entry(codes[code].count, codes[code].logs[id := []])])
  {
  }

  lemma CollectedNone(sample: seq<FailedJob>, present: (int, string) -> bool)
    ensures Collected(sample[..0], present) == map[]
  {
  }

  lemma CollectedStep(sample: seq<FailedJob>, s: nat, present: (int, string) -> bool)
    requires s < |sample|
    ensures sample[..s + 1] == sample[..s] + [sample[s]]
    ensures Collected(sample[..s + 1], present) == Collected(sample[..s], present)[sample[s].id := Found(sample[s].id, present)]
  {
    assert sample[..s + 1][..s] == sample[..s];
  }

  lemma {:induction false} CodesOfGroups(groups: seq<(int, seq<FailedJob>)>, g: nat)
    requires g <= |groups|
    requires forall i, j :: 0 <= i < j < |groups| ==> groups[i].0 < groups[j].0
    ensures forall c :: c in CodesOf(groups, g) <==> exists k :: 0 <= k < g && groups[k].0 == c
    ensures g < |groups| ==> forall c :: c in CodesOf(groups, g) ==> c < groups[g].0
  {
    if g > 0 {
      CodesOfGroups(groups, g - 1);
    }
  }

  /** Adding the entry of group g keeps the entries of the groups before it. */
  lemma EntriesStep(groups: seq<(int, seq<FailedJob>)>, g: nat, codes: map<int, Entry>, samples: int, present: (int, string) -> bool)
    requires g < |groups|
    requires forall i, j :: 0 <= i < j < |groups| ==> groups[i].0 < groups[j].0
    requires forall k :: 0 <= k < g ==> groups[k].0 in codes && codes[groups[k].0] == GroupEntry(groups[k].1, samples, present)
    ensures var codes' := codes[groups[g].0 := GroupEntry(groups[g].1, samples, present)];
            forall k :: 0 <= k < g + 1 ==> groups[k].0 in codes' && codes'[groups[k].0] == GroupEntry(groups[k].1, samples, present)
  {
  }

  /** After the last group, `codes` holds one entry per exit code. */
  lemma CollectedAll(failed: seq<FailedJob>, samples: int, present: (int, string) -> bool, codes: map<int, Entry>)
    requires var groups := Split(failed, ExitCode);
             codes.Keys == CodesOf(groups, |groups|) &&
             forall k :: 0 <= k < |groups| ==> groups[k].0 in codes && codes[groups[k].0] == GroupEntry(groups[k].1, samples, present)
    ensures codes == Sampled(failed, samples, present)
  {
    var groups := Split(failed, ExitCode);
    CodesOfGroups(groups, |groups|);
    var sm := Sampled(failed, samples, present);
    forall c | c in codes ensures c in sm && codes[c] == sm[c] {
      var k :| 0 <= k < |groups| && groups[k].0 == c;
    }
    forall c | c in sm ensures c in codes {
      var k :| 0 <= k < |groups| && groups[k].0 == c;
    }
    SameEntries(codes, sm);
  }

  /** When every group's sample has a failed directory, no sampled job misses one. */
  lemma NoneMissing(failed: seq<FailedJob>, samples: int, hasDir: int -> bool)
    requires var groups := Split(failed, ExitCode);
             forall k, y :: 0 <= k < |groups| && y in LastJobs(groups[k].1, samples) ==> hasDir(y.id)
    ensures !MissingDir(failed, samples, hasDir)
  {
    var groups := Split(failed, ExitCode);
    forall x | x in failed && x in LastJobs(RowsWith(failed, ExitCode, x.exitCode), samples) ensures hasDir(x.id) {
      var i :| 0 <= i < |failed| && failed[i] == x;
      assert Values(failed, ExitCode)[i] == x.exitCode;
      var k :| 0 <= k < |groups| && groups[k].0 == x.exitCode;
    }
  }

  /**
    The sampling loop for the jobs of one exit code: the code's entry is
    created, each of its last `samples` jobs is listed with the logs found for
    it, or IndexError when one of them has no failed directory.
  */
  method CollectGroup(failed: seq<FailedJob>, codes: map<int, Entry>, work: seq<Work>, code: int, jobs: seq<FailedJob>,
                      samples: int, hasDir: int -> bool, present: (int, string) -> bool)
    returns (r: Result<(map<int, Entry>, seq<Work>)>)
    requires DistinctIds(failed) && jobs == RowsWith(failed, ExitCode, code) && code !in codes
    requires WorkFor(work, codes) && Owned(codes, failed)
    ensures r.Err? ==> r.error == IndexError && exists y :: y in LastJobs(jobs, samples) && !hasDir(y.id)
    ensures r.Ok? ==> forall y :: y in LastJobs(jobs, samples) ==> hasDir(y.id)
    ensures r.Ok? ==> r.value.0 == codes[code := GroupEntry(jobs, samples, present)]
    ensures r.Ok? ==> WorkFor(r.value.1, r.value.0) && Owned(r.value.0, failed)
  {
    ghost var codes0 := codes;
    var codes, work := codes, work;
    WorkForNewCode(work, codes, code, |jobs|);
    OwnedNewCode(codes, failed, code, |jobs|);
    codes := codes[code := Entry(|jobs|, map[])];
    var sample := LastJobs(jobs, samples);
    RowsWithDistinct(failed, code);
    CollectedNone(sample, present);
    assert codes == codes0[code := Entry(|jobs|, Collected(sample[..0], present))];
    for s := 0 to |sample|
      invariant codes == codes0[code := Entry(|jobs|, Collected(sample[..s], present))]
      invariant forall y :: y in sample[..s] ==> hasDir(y.id)
      invariant WorkFor(work, codes)
      invariant Owned(codes, failed)
    {
      var x := sample[s];
      assert x in jobs;
      CodeOfRow(failed, x);
      SampleFresh(sample, s, present);
      OwnedFresh(codes, failed, code, x.id);
      WorkForFresh(work, codes, code, x.id);
      ghost var before := codes;
      codes := codes[code := Entry(codes[code].count, codes[code].logs[x.id := []])];
      if !hasDir(x.id) {
        assert x in LastJobs(jobs, samples);
        return Err(IndexError);
      }
      codes, work := ListLogs(codes, work, code, x.id, present);
      CollectedStep(sample, s, present);
      ghost var listed := Entry(before[code].count, before[code].logs[x.id := Found(x.id, present)]);
      UpdateTwice(before[code].logs, x.id, [], Found(x.id, present));
      UpdateTwice(before, code, Entry(before[code].count, before[code].logs[x.id := []]), listed);
      assert codes == before[code := listed];
      UpdateTwice(codes0, code, before[code], listed);
      assert listed == Entry(|jobs|, Collected(sample[..s + 1], present));
      OwnedStep(before, failed, code, x.id, Found(x.id, present));
    }
    assert sample[..|sample|] == sample;
    r := Ok((codes, work));
  }


  /**
    The sampling loop of `savelogs`: for every exit code and each of its last
    `samples` failed jobs, list the logs found in the job's failed directory
    and queue their unpacking; IndexError when a sampled job has no failed
    directory.
  */
  method CollectSamples(failed: seq<FailedJob>, samples: int, hasDir: int -> bool, present: (int, string) -> bool)
    returns (r: Result<(map<int, Entry>, seq<Work>)>)
    requires DistinctIds(failed)
    ensures r.Err? <==> MissingDir(failed, samples, hasDir)
    ensures r.Err? ==> r.error == IndexError
    ensures r.Ok? ==> r.value.0 == Sampled(failed, samples, present) && WorkFor(r.value.1, r.value.0)
  {
    var groups := Split(failed, ExitCode);
    assert GroupedBy(failed, groups);
    r := CollectGroups(failed, groups, samples, hasDir, present);
    if r.Err? {
      var k, y :| 0 <= k < |groups| && y in LastJobs(groups[k].1, samples) && !hasDir(y.id);
      assert y in failed && y.exitCode == groups[k].0;
    } else {
      CollectedAll(failed, samples, present, r.value.0);
      NoneMissing(failed, samples, hasDir);
    }
  }

  /** What the loop over the groups has done after the first g of them. */
  predicate GroupsDone(failed: seq<FailedJob>, groups: seq<(int, seq<FailedJob>)>, g: nat, codes: map<int, Entry>, work: seq<Work>,
                       samples: int, hasDir: int -> bool, present: (int, string) -> bool)
    requires g <= |groups|
  {
    codes.Keys == CodesOf(groups, g) &&
    (forall k :: 0 <= k < g ==> groups[k].0 in codes && codes[groups[k].0] == GroupEntry(groups[k].1, samples, present)) &&
    (forall k, y :: 0 <= k < g && y in LastJobs(groups[k].1, samples) ==> hasDir(y.id)) &&
    WorkFor(work, codes) && Owned(codes, failed)
  }

  /** The groups the loop goes over: ascending exit codes, each with its rows. */
  predicate GroupedBy(failed: seq<FailedJob>, groups: seq<(int, seq<FailedJob>)>)
  {
    (forall i, j :: 0 <= i < j < |groups| ==> groups[i].0 < groups[j].0) &&
    (forall k :: 0 <= k < |groups| ==> groups[k].1 == RowsWith(failed, ExitCode, groups[k].0))
  }

  lemma GroupsDoneNext(failed: seq<FailedJob>, groups: seq<(int, seq<FailedJob>)>, g: nat, codes: map<int, Entry>, work: seq<Work>,
                       samples: int, hasDir: int -> bool, present: (int, string) -> bool)
    requires g < |groups| && GroupedBy(failed, groups)
    requires GroupsDone(failed, groups, g, codes, work, samples, hasDir, present)
    ensures groups[g].1 == RowsWith(failed, ExitCode, groups[g].0) && groups[g].0 !in codes
    ensures WorkFor(work, codes) && Owned(codes, failed)
  {
    CodesOfGroups(groups, g);
  }

  lemma GroupsDoneStep(failed: seq<FailedJob>, groups: seq<(int, seq<FailedJob>)>, g: nat, codes: map<int, Entry>, work: seq<Work>,
                       samples: int, hasDir: int -> bool, present: (int, string) -> bool, codes': map<int, Entry>, work': seq<Work>)
    requires g < |groups| && GroupedBy(failed, groups)
    requires GroupsDone(failed, groups, g, codes, work, samples, hasDir, present)
    requires forall y :: y in LastJobs(groups[g].1, samples) ==> hasDir(y.id)
    requires codes' == codes[groups[g].0 := GroupEntry(groups[g].1, samples, present)]
    requires WorkFor(work', codes') && Owned(codes', failed)
    ensures GroupsDone(failed, groups, g + 1, codes', work', samples, hasDir, present)
  {
    EntriesStep(groups, g, codes, samples, present);
    KeysUpdate(codes, CodesOf(groups, g), groups[g].0, GroupEntry(groups[g].1, samples, present));
    forall k, y | 0 <= k < g + 1 && y in LastJobs(groups[k].1, samples) ensures hasDir(y.id) {
      if k == g {
      }
    }
  }

  lemma KeysUpdate<K, V>(m: map<K, V>, s: set<K>, k: K, v: V)
    requires m.Keys == s
    ensures m[k := v].Keys == s + {k}
  {
  }

  /** The loop over the groups of `split_by_column(failed_jobs, 'exit_code')`. */
  method CollectGroups(failed: seq<FailedJob>, groups: seq<(int, seq<FailedJob>)>, samples: int, hasDir: int -> bool, present: (int, string) -> bool)
    returns (r: Result<(map<int, Entry>, seq<Work>)>)
    requires DistinctIds(failed) && GroupedBy(failed, groups)
    ensures r.Err? ==> r.error == IndexError
    ensures r.Err? ==> exists k, y :: 0 <= k < |groups| && y in LastJobs(groups[k].1, samples) && !hasDir(y.id)
    ensures r.Ok? ==> GroupsDone(failed, groups, |groups|, r.value.0, r.value.1, samples, hasDir, present)
  {
    var codes: map<int, Entry> := map[];
    var work: seq<Work> := [];
    for g := 0 to |groups|
      invariant GroupsDone(failed, groups, g, codes, work, samples, hasDir, present)
    {
      var (code, jobs) := groups[g];
      GroupsDoneNext(failed, groups, g, codes, work, samples, hasDir, present);
      var res := CollectGroup(failed, codes, work, code, jobs, samples, hasDir, present);
      if res.Err? {
        return Err(res.error);
      }
      GroupsDoneStep(failed, groups, g, codes, work, samples, hasDir, present, res.value.0, res.value.1);
      codes, work := res.value.0, res.value.1;
    }
    r := Ok((codes, work));
  }

  /** A new exit code with no jobs listed yet keeps the work list consistent. */
  lemma WorkForNewCode(work: seq<Work>, codes: map<int, Entry>, code: int, count: nat)
    requires WorkFor(work, codes) && code !in codes
    ensures WorkFor(work, codes[code := Entry(count, map[])])
  {
  }

  /** Appending a log name that the job does not list yet, with its work item, keeps the work list consistent. */
  lemma WorkForAppend(work: seq<Work>, codes: map<int, Entry>, code: int, id: int, name: string)
    requires WorkFor(work, codes) && code in codes && id in codes[code].logs && name !in codes[code].logs[id]
    ensures WorkFor(work + [Work(code, id, name)], codes[code := Entry(codes[code].count, codes[code].logs[id := codes[code].logs[id] + [name]])])
  {
    var work' := work + [Work(code, id, name)];
    var codes' := codes[code := Entry(codes[code].count, codes[code].logs[id := codes[code].logs[id] + [name]])];
    forall a | 0 <= a < |work| ensures !(work[a].id == id && work[a].file == name) {
      if work[a].id == id {
        assert work[a].code == code;
      }
    }
    forall c, i, f | c in codes' && i in codes'[c].logs && f in codes'[c].logs[i] ensures Has(work', i, f) {
      if i == id && f == name {
        assert work'[|work|].id == i && work'[|work|].file == f;
      } else {
        assert c in codes && i in codes[c].logs && f in codes[c].logs[i];
        assert Has(work, i, f);
        var a :| 0 <= a < |work| && work[a].id == i && work[a].file == f;
        assert work'[a] == work[a];
      }
    }
  }

  /** One more turn of the loop over Sources appends that source's name when it is listed. */
  lemma LogNamesStep(l: nat, cmssw: bool, job: bool)
    requires l < |Sources|
    ensures Stripped(Sources[l]) !in LogNames(l > 0 && cmssw, l > 1 && job)
    ensures LogNames(l + 1 > 0 && cmssw, l + 1 > 1 && job) ==
            LogNames(l > 0 && cmssw, l > 1 && job) + (if (if l == 0 then cmssw else job) then [Stripped(Sources[l])] else [])
  {
    StrippedSources();
  }

  /**
    The loop over Sources for one sampled job: each log whose source exists
    is appended to the job's list and queued for unpacking.
  */
  method ListLogs(codes: map<int, Entry>, work: seq<Work>, code: int, id: int, present: (int, string) -> bool)
    returns (codes': map<int, Entry>, work': seq<Work>)
    requires WorkFor(work, codes) && code in codes && id in codes[code].logs && codes[code].logs[id] == []
    ensures codes' == codes[code := Entry(codes[code].count, codes[code].logs[id := Found(id, present)])]
    ensures WorkFor(work', codes')
  {
    codes', work' := codes, work;
    assert LogNames(false, false) == [];
    assert codes[code].logs[id := []] == codes[code].logs;
    assert codes[code := Entry(codes[code].count, codes[code].logs)] == codes;
    for l := 0 to |Sources|
      invariant codes' == codes[code := Entry(codes[code].count,
        codes[code].logs[id := LogNames(l > 0 && present(id, Sources[0]), l > 1 && present(id, Sources[1]))])]
      invariant WorkFor(work', codes')
    {
      LogNamesStep(l, present(id, Sources[0]), present(id, Sources[1]));
      if present(id, Sources[l]) {
        var name := Stripped(Sources[l]);
        WorkForAppend(work', codes', code, id, name);
        ghost var names := codes'[code].logs[id] + [name];
        assert codes'[code].logs[id := names] == codes[code].logs[id := names];
        codes' := codes'[code := Entry(codes'[code].count, codes'[code].logs[id := codes'[code].logs[id] + [name]])];
        work' := work' + [Work(code, id, name)];
      }
    }
  }

  /** Log f of job id is still listed after the first w work items: found, and not failed by one of them. */
  predicate Keeps(work: seq<Work>, w: nat, id: int, f: string, found: bool, unpacks: (int, string) -> bool)
    requires w <= |work|
  {
    found && !(Has(work[..w], id, f) && !unpacks(id, f))
  }

  /** The job tables after the pruning loop has handled the first w work items. */
  predicate Pruned(codes0: map<int, Entry>, codes: map<int, Entry>, work: seq<Work>, w: nat,
                   present: (int, string) -> bool, unpacks: (int, string) -> bool)
    requires w <= |work|
  {
    codes.Keys == codes0.Keys &&
    (forall c :: c in codes ==> codes[c].count == codes0[c].count && codes[c].logs.Keys == codes0[c].logs.Keys) &&
    (forall c, id :: c in codes && id in codes[c].logs ==>
       codes[c].logs[id] == LogNames(Keeps(work, w, id, "cmssw.log", present(id, Sources[0]), unpacks),
                                     Keeps(work, w, id, "job.log", present(id, Sources[1]), unpacks)))
  }

  /** Every listed job lists the logs found for it. */
  predicate AllFound(codes: map<int, Entry>, present: (int, string) -> bool)
  {
    forall c, id :: c in codes && id in codes[c].logs ==> codes[c].logs[id] == Found(id, present)
  }

  lemma HasStep(ws: seq<Work>, w: nat, id: int, f: string)
    requires w < |ws|
    ensures Has(ws[..w + 1], id, f) <==> Has(ws[..w], id, f) || (ws[w].id == id && ws[w].file == f)
  {
    if Has(ws[..w + 1], id, f) && !(ws[w].id == id && ws[w].file == f) {
      var a :| 0 <= a < w + 1 && ws[..w + 1][a].id == id && ws[..w + 1][a].file == f;
      assert ws[..w][a] == ws[a];
    }
    if Has(ws[..w], id, f) {
      var a :| 0 <= a < w && ws[..w][a].id == id && ws[..w][a].file == f;
      assert ws[..w + 1][a] == ws[a];
    }
    if ws[w].id == id && ws[w].file == f {
      assert ws[..w + 1][w] == ws[w];
    }
  }

  lemma PrunedNone(codes: map<int, Entry>, work: seq<Work>, present: (int, string) -> bool, unpacks: (int, string) -> bool)
    requires AllFound(codes, present)
    ensures Pruned(codes, codes, work, 0, present, unpacks)
  {
    forall c, id | c in codes && id in codes[c].logs
      ensures codes[c].logs[id] == LogNames(Keeps(work, 0, id, "cmssw.log", present(id, Sources[0]), unpacks),
                                            Keeps(work, 0, id, "job.log", present(id, Sources[1]), unpacks))
    {
      assert !Has(work[..0], id, "cmssw.log") && !Has(work[..0], id, "job.log");
      assert codes[c].logs[id] == Found(id, present);
    }
  }

  /** The work item w names a log its job still lists. */
  lemma PruneNext(codes0: map<int, Entry>, codes: map<int, Entry>, work: seq<Work>, w: nat,
                  present: (int, string) -> bool, unpacks: (int, string) -> bool)
    requires w < |work| && WorkFor(work, codes0) && AllFound(codes0, present)
    requires Pruned(codes0, codes, work, w, present, unpacks)
    ensures work[w].code in codes && work[w].id in codes[work[w].code].logs
    ensures work[w].file in codes[work[w].code].logs[work[w].id]
    ensures !Has(work[..w], work[w].id, work[w].file)
    ensures var it := work[w];
            (it.file == "cmssw.log" && present(it.id, Sources[0])) || (it.file == "job.log" && present(it.id, Sources[1]))
  {
    var it := work[w];
    assert codes0[it.code].logs[it.id] == Found(it.id, present);
    LogNamesHas(present(it.id, Sources[0]), present(it.id, Sources[1]));
    RemoveLogName(Keeps(work, w, it.id, "cmssw.log", present(it.id, Sources[0]), unpacks),
                  Keeps(work, w, it.id, "job.log", present(it.id, Sources[1]), unpacks), it.file);
  }

  /** Handling work item w: its log is removed when unpacking it failed. */
  lemma PruneStep(codes0: map<int, Entry>, codes: map<int, Entry>, work: seq<Work>, w: nat,
                  present: (int, string) -> bool, unpacks: (int, string) -> bool, codes': map<int, Entry>)
    requires w < |work| && WorkFor(work, codes0) && AllFound(codes0, present)
    requires Pruned(codes0, codes, work, w, present, unpacks)
    requires var it := work[w];
             it.code in codes && it.id in codes[it.code].logs && it.file in codes[it.code].logs[it.id] &&
             !Has(work[..w], it.id, it.file) &&
             ((it.file == "cmssw.log" && present(it.id, Sources[0])) || (it.file == "job.log" && present(it.id, Sources[1])))
    requires var it := work[w];
             codes' == if unpacks(it.id, it.file) then codes
                       else codes[it.code := Entry(codes[it.code].count, codes[it.code].logs[it.id := Remove(codes[it.code].logs[it.id], it.file)])]
    ensures Pruned(codes0, codes', work, w + 1, present, unpacks)
  {
    var it := work[w];
    var k0 := Keeps(work, w, it.id, "cmssw.log", present(it.id, Sources[0]), unpacks);
    var k1 := Keeps(work, w, it.id, "job.log", present(it.id, Sources[1]), unpacks);
    RemoveLogName(k0, k1, it.file);
    forall c, id | c in codes' && id in codes'[c].logs
      ensures codes'[c].logs[id] == LogNames(Keeps(work, w + 1, id, "cmssw.log", present(id, Sources[0]), unpacks),
                                             Keeps(work, w + 1, id, "job.log", present(id, Sources[1]), unpacks))
    {
      KeepsStep(work, w, id, "cmssw.log", present(id, Sources[0]), unpacks);
      KeepsStep(work, w, id, "job.log", present(id, Sources[1]), unpacks);
      if id == it.id {
        assert c == it.code;
      }
    }
  }

  /** Work item w fails log f of job id exactly when it names them and unpacking failed. */
  lemma KeepsStep(work: seq<Work>, w: nat, id: int, f: string, found: bool, unpacks: (int, string) -> bool)
    requires w < |work|
    ensures Keeps(work, w + 1, id, f, found, unpacks) ==
            (Keeps(work, w, id, f, found, unpacks) && !(work[w].id == id && work[w].file == f && !unpacks(id, f)))
  {
    HasStep(work, w, id, f);
  }

  /**
    The pruning loop of `savelogs`: for each work item whose unpacking
    failed, the log is taken out of its job's list.
  */
  method PruneLogs(codes: map<int, Entry>, work: seq<Work>, present: (int, string) -> bool, unpacks: (int, string) -> bool)
    returns (codes': map<int, Entry>)
    requires WorkFor(work, codes) && AllFound(codes, present)
    ensures codes'.Keys == codes.Keys
    ensures forall c :: c in codes ==> codes'[c].count == codes[c].count && codes'[c].logs.Keys == codes[c].logs.Keys
    ensures forall c, id :: c in codes' && id in codes'[c].logs ==> codes'[c].logs[id] == Listed(id, present, unpacks)
  {
    codes' := codes;
    PrunedNone(codes, work, present, unpacks);
    for w := 0 to |work|
      invariant Pruned(codes, codes', work, w, present, unpacks)
    {
      var it := work[w];
      PruneNext(codes, codes', work, w, present, unpacks);
      ghost var before := codes';
      if !unpacks(it.id, it.file) {
        codes' := codes'[it.code := Entry(codes'[it.code].count, codes'[it.code].logs[it.id := Remove(codes'[it.code].logs[it.id], it.file)])];
      }
      PruneStep(codes, before, work, w, present, unpacks, codes');
    }
    PrunedAll(codes, codes', work, present, unpacks);
  }

  /** After the last work item, every listed job lists exactly the logs found and unpacked. */
  lemma PrunedAll(codes0: map<int, Entry>, codes: map<int, Entry>, work: seq<Work>, present: (int, string) -> bool, unpacks: (int, string) -> bool)
    requires WorkFor(work, codes0) && AllFound(codes0, present)
    requires Pruned(codes0, codes, work, |work|, present, unpacks)
    ensures forall c, id :: c in codes && id in codes[c].logs ==> codes[c].logs[id] == Listed(id, present, unpacks)
  {
    assert work[..|work|] == work;
    StrippedSources();
    forall c, id | c in codes && id in codes[c].logs ensures codes[c].logs[id] == Listed(id, present, unpacks) {
      assert id in codes0[c].logs && codes0[c].logs[id] == Found(id, present);
      LogNamesHas(present(id, Sources[0]), present(id, Sources[1]));
    }
  }

  /** `for id in range(samples - len(logs)): logs[-id] = []` for the job table of one exit code. */
  method PadTable(logs: map<int, seq<string>>, samples: int) returns (logs': map<int, seq<string>>)
    ensures logs' == Padded(logs, samples)
  {
    logs' := logs;
    var n := samples - |logs|;
    var i := 0;
    while i < n
      invariant 0 <= i <= (if n < 0 then 0 else n)
      invariant logs' == PadFrom(logs, i)
    {
      logs' := logs'[-i := []];
      i := i + 1;
    }
    if n <= 0 {
      assert PadFrom(logs, n) == logs;
    } else {
      assert i == n;
    }
  }

  /**
    The padding loop of `savelogs` over the exit codes of the dictionary.
    A Python 2 dict iterates in no particular order; the loop visits the
    codes in `order`, one listing of them, and the result does not depend on
    which listing it is, since each code's table is padded on its own.
  */
  method PadLogs(codes: map<int, Entry>, order: seq<int>, samples: int) returns (codes': map<int, Entry>)
    requires StrictlyIncreasing(order) && forall c :: c in codes <==> c in order
    ensures codes'.Keys == codes.Keys
    ensures forall c :: c in codes ==> codes'[c] == Entry(codes[c].count, Padded(codes[c].logs, samples))
  {
    codes' := codes;
    forall k | 0 <= k < |order| ensures order[k] in codes {
      assert order[k] in order;
    }
    for i := 0 to |order|
      invariant codes'.Keys == codes.Keys
      invariant forall k :: 0 <= k < i ==> codes'[order[k]] == Entry(codes[order[k]].count, Padded(codes[order[k]].logs, samples))
      invariant forall k :: i <= k < |order| ==> codes'[order[k]] == codes[order[k]]
    {
      var e := codes'[order[i]];
      var logs := PadTable(e.logs, samples);
      ghost var before := codes';
      codes' := codes'[order[i] := Entry(e.count, logs)];
      forall k | 0 <= k < |order| && k != i ensures codes'[order[k]] == before[order[k]] {
        assert order[k] != order[i];
      }
    }
    forall c | c in codes ensures codes'[c] == Entry(codes[c].count, Padded(codes[c].logs, samples)) {
      var k :| 0 <= k < |order| && order[k] == c;
    }
  }

  /** The job tables `codes` built by the sampling loop list every sampled job with the logs found for it. */
  lemma SampledFound(failed: seq<FailedJob>, samples: int, present: (int, string) -> bool)
    ensures AllFound(Sampled(failed, samples, present), present)
    ensures forall c :: c in Sampled(failed, samples, present) ==>
              Sampled(failed, samples, present)[c].logs.Keys == Ids(LastJobs(RowsWith(failed, ExitCode, c), samples))
  {
    var sm := Sampled(failed, samples, present);
    forall c | c in sm
      ensures sm[c].logs.Keys == Ids(LastJobs(RowsWith(failed, ExitCode, c), samples))
      ensures forall id :: id in sm[c].logs ==> sm[c].logs[id] == Found(id, present)
    {
      CollectedLists(LastJobs(RowsWith(failed, ExitCode, c), samples), present);
    }
  }

  /**
    `savelogs(failed_jobs, samples)`: the three loops in turn. Job ids are
    assumed distinct, as the job table's key.
  */
  method SaveLogs(failed: seq<FailedJob>, samples: int, hasDir: int -> bool,
                  present: (int, string) -> bool, unpacks: (int, string) -> bool)
    returns (r: Result<map<int, Entry>>)
    requires DistinctIds(failed)
    ensures r == SaveLogsSpec(failed, samples, hasDir, present, unpacks)
  {
    var collected := CollectSamples(failed, samples, hasDir, present);
    if collected.Err? {
      return Err(collected.error);
    }
    var (sampled, work) := collected.value;
    SampledFound(failed, samples, present);
    var pruned := PruneLogs(sampled, work, present, unpacks);
    var order := Unique(Values(failed, ExitCode));
    var codes := PadLogs(pruned, order, samples);
    SaveLogsResult(failed, samples, present, unpacks, pruned, codes);
    r := Ok(codes);
  }

  /** A pruned job table of one exit code, once padded, is the entry `savelogs` returns for it. */
  lemma ExpectedEntry(jobs: seq<FailedJob>, samples: int, present: (int, string) -> bool, unpacks: (int, string) -> bool,
                      count: nat, logs: map<int, seq<string>>)
    requires count == |jobs| && logs.Keys == Ids(LastJobs(jobs, samples))
    requires forall id :: id in logs ==> logs[id] == Listed(id, present, unpacks)
    ensures Entry(count, Padded(logs, samples)) == Expected(jobs, samples, present, unpacks)
  {
    var listed := map id | id in Ids(LastJobs(jobs, samples)) :: Listed(id, present, unpacks);
    assert logs == listed;
  }

  lemma SameEntries(a: map<int, Entry>, b: map<int, Entry>)
    requires forall c :: c in a <==> c in b
    requires forall c :: c in a ==> a[c] == b[c]
    ensures a == b
  {
    forall c | c in a ensures c in b && a[c] == b[c] {}
    forall c | c in b ensures c in a {}
  }

  /** The three phases together give the entries of SaveLogsSpec. */
  lemma SaveLogsResult(failed: seq<FailedJob>, samples: int, present: (int, string) -> bool, unpacks: (int, string) -> bool,
                       pruned: map<int, Entry>, codes: map<int, Entry>)
    requires var sm := Sampled(failed, samples, present);
             pruned.Keys == sm.Keys &&
             (forall c :: c in sm ==> pruned[c].count == sm[c].count && pruned[c].logs.Keys == sm[c].logs.Keys) &&
             (forall c, id :: c in pruned && id in pruned[c].logs ==> pruned[c].logs[id] == Listed(id, present, unpacks))
    requires codes.Keys == pruned.Keys
    requires forall c :: c in pruned ==> codes[c] == Entry(pruned[c].count, Padded(pruned[c].logs, samples))
    ensures codes == ExpectedCodes(failed, samples, present, unpacks)
  {
    SampledFound(failed, samples, present);
    var sm := Sampled(failed, samples, present);
    var want := ExpectedCodes(failed, samples, present, unpacks);
    forall c | c in codes ensures c in want && codes[c] == want[c] {
      var jobs := RowsWith(failed, ExitCode, c);
      assert c in sm;
      var p := pruned[c];
      assert sm[c] == GroupEntry(jobs, samples, present);
      assert p.count == |jobs|;
      assert p.logs.Keys == Ids(LastJobs(jobs, samples));
      ExpectedEntry(jobs, samples, present, unpacks, p.count, p.logs);
    }
    forall c | c in want ensures c in codes {
      assert c in sm;
    }
    SameEntries(codes, want);
  }

  /** With distinct ids, the sampled job table has one key per sampled job. */
  lemma {:induction false} IdsSize(jobs: seq<FailedJob>)
    requires DistinctIds(jobs)
    ensures |Ids(jobs)| == |jobs|
    decreases |jobs|
  {
    if jobs != [] {
      var p := jobs[..|jobs| - 1];
      var last := jobs[|jobs| - 1];
      assert jobs == p + [last];
      assert DistinctIds(p);
      IdsSize(p);
      forall x | x in p ensures x.id != last.id {
        var i :| 0 <= i < |p| && p[i] == x;
        assert jobs[i] == x;
      }
      assert Ids(jobs) == Ids(p) + {last.id};
    }
  }

  /**
    Placeholders never collide with real (positive) job ids: padding keeps
    every job's logs, adds n empty entries at keys 0, -1, ..., -(n-1), and
    nothing else.
  */
  lemma {:induction false} PadFromTable(logs: map<int, seq<string>>, n: int)
    requires forall k :: k in logs ==> k > 0
    ensures forall k :: k in PadFrom(logs, n) <==> k in logs || -n < k <= 0
    ensures forall k :: k in logs ==> PadFrom(logs, n)[k] == logs[k]
    ensures forall k :: k in PadFrom(logs, n) && k !in logs ==> PadFrom(logs, n)[k] == []
    ensures |PadFrom(logs, n)| == |logs| + (if n > 0 then n else 0)
    decreases n
  {
    if n > 0 {
      PadFromTable(logs, n - 1);
      var m := PadFrom(logs, n - 1);
      assert -(n - 1) !in m;
      AddOne(m, -(n - 1));
    }
  }

  lemma AddOne(m: map<int, seq<string>>, k: int)
    requires k !in m
    ensures |m[k := []]| == |m| + 1
  {
  }

  /**
    Padding keeps every sampled job's logs, adds only empty placeholder
    entries at keys 0, -1, ..., and brings a table of positive job ids to
    `samples` entries when it had fewer.
  */
  lemma PaddedTable(logs: map<int, seq<string>>, samples: int)
    requires forall k :: k in logs ==> k > 0
    ensures forall k :: k in logs ==> k in Padded(logs, samples) && Padded(logs, samples)[k] == logs[k]
    ensures forall k :: k in Padded(logs, samples) && k !in logs ==> k <= 0 && Padded(logs, samples)[k] == []
    ensures |Padded(logs, samples)| == if samples > |logs| then samples else |logs|
  {
    PadFromTable(logs, samples - |logs|);
  }

  /** The sampled jobs are jobs of the group, with distinct ids when the group's are. */
  lemma SampleOfJobs(jobs: seq<FailedJob>, samples: int)
    ensures forall x :: x in LastJobs(jobs, samples) ==> x in jobs
    ensures DistinctIds(jobs) ==> DistinctIds(LastJobs(jobs, samples))
  {
    var start := SliceStart(|jobs|, samples);
    var sample := jobs[start..];
    forall x | x in sample ensures x in jobs {
      var i :| 0 <= i < |sample| && sample[i] == x;
      assert jobs[start + i] == x;
    }
    if DistinctIds(jobs) {
      forall i, j | 0 <= i < j < |sample| ensures sample[i].id != sample[j].id {
        assert sample[i] == jobs[start + i] && sample[j] == jobs[start + j];
      }
    }
  }

  /**
    The entry for one exit code: its job count, and a table of exactly
    `samples` entries in which each sampled job lists the logs that were
    found and unpacked.
  */
  lemma ExpectedTable(jobs: seq<FailedJob>, samples: int, present: (int, string) -> bool, unpacks: (int, string) -> bool)
    requires DistinctIds(jobs) && (forall x :: x in jobs ==> x.id > 0) && samples > 0
    ensures var e := Expected(jobs, samples, present, unpacks);
            e.count == |jobs| && |e.logs| == samples &&
            forall x :: x in LastJobs(jobs, samples) ==> x.id in e.logs && e.logs[x.id] == Listed(x.id, present, unpacks)
  {
    var sample := LastJobs(jobs, samples);
    var listed := map id | id in Ids(sample) :: Listed(id, present, unpacks);
    assert Expected(jobs, samples, present, unpacks) == Entry(|jobs|, Padded(listed, samples));
    LastJobsSize(jobs, samples);
    SampleOfJobs(jobs, samples);
    IdsSize(sample);
    assert listed.Keys == Ids(sample);
    forall k | k in listed ensures k > 0 {
      var x :| x in sample && x.id == k;
    }
    PaddedTable(listed, samples);
  }

  /**
    With distinct, positive job ids and `samples > 0`, `savelogs` returns one
    entry per exit code, holding the number of failed jobs with that code and
    a table of exactly `samples` entries, in which each sampled job lists the
    logs that were found and unpacked.
  */
  lemma SaveLogsTables(failed: seq<FailedJob>, samples: int, hasDir: int -> bool,
                       present: (int, string) -> bool, unpacks: (int, string) -> bool)
    requires DistinctIds(failed) && forall i :: 0 <= i < |failed| ==> failed[i].id > 0
    requires samples > 0 && !MissingDir(failed, samples, hasDir)
    ensures SaveLogsSpec(failed, samples, hasDir, present, unpacks).Ok?
    ensures var codes := SaveLogsSpec(failed, samples, hasDir, present, unpacks).value;
            (forall c :: c in codes <==> c in Values(failed, ExitCode)) &&
            forall c :: c in codes ==>
              var jobs := RowsWith(failed, ExitCode, c);
              codes[c].count == |jobs| > 0 && |codes[c].logs| == samples &&
              forall x :: x in LastJobs(jobs, samples) ==> x.id in codes[c].logs && codes[c].logs[x.id] == Listed(x.id, present, unpacks)
  {
    var codes := ExpectedCodes(failed, samples, present, unpacks);
    forall c | c in codes
      ensures var jobs := RowsWith(failed, ExitCode, c);
              codes[c].count == |jobs| > 0 && |codes[c].logs| == samples &&
              forall x :: x in LastJobs(jobs, samples) ==> x.id in codes[c].logs && codes[c].logs[x.id] == Listed(x.id, present, unpacks)
    {
      var jobs := RowsWith(failed, ExitCode, c);
      RowsWithDistinct(failed, c);
      forall x | x in jobs ensures x.id > 0 {
        var i :| 0 <= i < |failed| && failed[i] == x;
      }
      ExpectedTable(jobs, samples, present, unpacks);
    }
  }
}
