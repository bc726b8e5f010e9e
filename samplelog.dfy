/**
  The statistics log of the work queue as `Plotter.readlog` in
  lobster/cmssw/plotting.py prepares it: the header names the columns, the
  time column is converted from microseconds to seconds, cumulative counters
  become per-row differences (row 0 is compared with the last row, as
  `np.roll` wraps around), and the rows are cut to the plotting window.

  The matrix is modelled column by column (`cols[j]` is `stats[:, j]`).
*/
module SampleLog {
  import opened Common

  /**
    The header dictionary `{name: position}` built from the header tokens; a
    name that occurs twice maps to its last position, as a dict built from
    pairs keeps the last value.
  */
  function Headers(names: seq<string>): (h: map<string, nat>)
    ensures forall x :: x in h <==> x in names
    ensures forall x :: x in h ==> h[x] < |names| && names[h[x]] == x
    ensures forall x :: x in h ==> forall p :: h[x] < p < |names| ==> names[p] != x
  {
    if names == [] then map[]
    else
      var n := |names| - 1;
      var h' := Headers(names[..n]);
      LastPositions(names, h');
      h'[names[n] := n]
  }

  /** The step of Headers: adding the last name to the dictionary of the others. */
  lemma LastPositions(names: seq<string>, h': map<string, nat>)
    requires |names| > 0
    requires var n := |names| - 1;
             (forall x :: x in h' <==> x in names[..n]) &&
             (forall x :: x in h' ==> h'[x] < n && names[..n][h'[x]] == x) &&
             (forall x :: x in h' ==> forall p :: h'[x] < p < n ==> names[..n][p] != x)
    ensures var n := |names| - 1;
            var h := h'[names[n] := n];
            (forall x :: x in h <==> x in names) &&
            (forall x :: x in h ==> h[x] < |names| && names[h[x]] == x) &&
            (forall x :: x in h ==> forall p :: h[x] < p < |names| ==> names[p] != x)
  {
    var n := |names| - 1;
    var h := h'[names[n] := n];
    assert names == names[..n] + [names[n]];
    forall x ensures x in h <==> x in names {
      assert x in names <==> x in names[..n] || x == names[n];
    }
    forall x | x in h ensures h[x] < |names| && names[h[x]] == x {
      if x != names[n] {
        assert names[..n][h'[x]] == names[h'[x]];
      }
    }
    forall x, p | x in h && h[x] < p < |names| ensures names[p] != x {
      assert x != names[n];
      if p < n {
        assert names[..n][p] == names[p];
      }
    }
  }

  /** Distinct names have distinct positions. */
  lemma HeadersInjective(names: seq<string>, x: string, y: string)
    requires x in Headers(names) && y in Headers(names) && x != y
    ensures Headers(names)[x] != Headers(names)[y]
  {
  }

  /** Every column has n entries. */
  predicate Shaped(cols: seq<seq<real>>, n: nat)
  {
    forall j :: 0 <= j < |cols| ==> |cols[j]| == n
  }

  /** The entry `np.roll(c, 1)` puts beside c[i]: the previous one, and the last one for row 0. */
  function Prev(c: seq<real>, i: nat): real
    requires i < |c|
  {
    if i == 0 then c[|c| - 1] else c[i - 1]
  }

  /** The three in-place column rewrites of readlog. */
  datatype ColumnOp =
    | ToSeconds     // `/= 1e6`
    | ClampedDelta  // `np.maximum(c - np.roll(c, 1), 0)`
    | MinutesDelta  // `-= np.roll(c, 1)` then `/= 60e6`

  function Step(op: ColumnOp, c: seq<real>, i: nat): real
    requires i < |c|
  {
    match op
    case ToSeconds => c[i] / 1000000.0
    case ClampedDelta => Max(c[i] - Prev(c, i), 0.0)
    case MinutesDelta => (c[i] - Prev(c, i)) / 60000000.0
  }

  /** A column after one rewrite; the right-hand side is computed from the column before it. */
  function Apply(op: ColumnOp, c: seq<real>): (d: seq<real>)
    ensures |d| == |c| && forall i :: 0 <= i < |c| ==> d[i] == Step(op, c, i)
  {
    seq(|c|, i requires 0 <= i < |c| => Step(op, c, i))
  }

  /**
    `stats[:, headers[name]]` rewritten with op: KeyError when the header has
    no such name, IndexError when the named position is past the last column.
  */
  function Update(cols: seq<seq<real>>, h: map<string, nat>, name: string, op: ColumnOp): Result<seq<seq<real>>>
  {
    if name !in h then Err(KeyError)
    else if h[name] >= |cols| then Err(IndexError)
    else Ok(cols[h[name] := Apply(op, cols[h[name]])])
  }

  const Joined := "total_workers_joined"
  const Removed := "total_workers_removed"
  const CreateTime := "total_create_time"
  const ReturnTime := "total_return_time"
  const SendTime := "total_send_time"
  const ReceiveTime := "total_receive_time"

  /** The worker turnover rewrites: joined, then removed. */
  function Turnover(c0: seq<seq<real>>, h: map<string, nat>): Result<seq<seq<real>>>
  {
    var c1 :- Update(c0, h, Joined, ClampedDelta);
    Update(c1, h, Removed, ClampedDelta)
  }

  /** The timing rewrites: create and return time when the header has the create time, then send and receive. */
  function Timings(c2: seq<seq<real>>, h: map<string, nat>): Result<seq<seq<real>>>
  {
    var c4 :- if CreateTime in h then
                var c3 :- Update(c2, h, CreateTime, MinutesDelta);
                Update(c3, h, ReturnTime, MinutesDelta)
              else Ok(c2);
    var c5 :- Update(c4, h, SendTime, MinutesDelta);
    Update(c5, h, ReceiveTime, MinutesDelta)
  }

  /** The counter rewrites, in the order readlog applies them. */
  function Counters(c0: seq<seq<real>>, h: map<string, nat>): Result<seq<seq<real>>>
  {
    var c2 :- Turnover(c0, h);
    Timings(c2, h)
  }

  /**
    All column rewrites of readlog, in its order: IndexError when the matrix
    has no column (`stats[:, 0]`), then the time column to seconds, then the
    counters; the create and return times only when the header names the
    create time.
  */
  function Normalise(cols: seq<seq<real>>, h: map<string, nat>): Result<seq<seq<real>>>
  {
    if |cols| == 0 then Err(IndexError)
    else Counters(cols[0 := Apply(ToSeconds, cols[0])], h)
  }

  /** Python's `not b` for a window bound: None and 0 are both unset. */
  predicate Unset(b: Option<real>)
  {
    b.None? || b.value == 0.0
  }

  /** The boolean mask `(t >= lo) & (t <= hi)`. */
  function WindowMask(t: seq<real>, lo: real, hi: real): (m: seq<bool>)
    ensures |m| == |t| && forall i :: 0 <= i < |t| ==> (m[i] <==> lo <= t[i] <= hi)
  {
    seq(|t|, i requires 0 <= i < |t| => lo <= t[i] <= hi)
  }

  /** The rows of a column-major matrix with n rows. */
  function Rows(cols: seq<seq<real>>, n: nat): (rs: seq<seq<real>>)
    requires Shaped(cols, n)
    ensures |rs| == n
    ensures forall i :: 0 <= i < n ==> |rs[i]| == |cols| && forall j :: 0 <= j < |cols| ==> rs[i][j] == cols[j][i]
  {
    seq(n, i requires 0 <= i < n => seq(|cols|, j requires 0 <= j < |cols| => cols[j][i]))
  }

  lemma CountersShape(c0: seq<seq<real>>, h: map<string, nat>, n: nat)
    requires Shaped(c0, n) && Counters(c0, h).Ok?
    ensures |Counters(c0, h).value| == |c0| && Shaped(Counters(c0, h).value, n)
  {
  }

  /** The rewrites keep the shape of the matrix. */
  lemma NormaliseShape(cols: seq<seq<real>>, h: map<string, nat>, n: nat)
    requires Shaped(cols, n) && Normalise(cols, h).Ok?
    ensures |Normalise(cols, h).value| == |cols| && Shaped(Normalise(cols, h).value, n)
  {
    CountersShape(cols[0 := Apply(ToSeconds, cols[0])], h, n);
  }

  /** An update leaves every other column as it was. */
  lemma UpdateElsewhere(cols: seq<seq<real>>, h: map<string, nat>, name: string, op: ColumnOp, j: nat)
    requires Update(cols, h, name, op).Ok? && j < |cols| && h[name] != j
    ensures Update(cols, h, name, op).value[j] == cols[j]
  {
  }

  /** The timing rewrites leave every column that no timing name points at as it was. */
  lemma TimingsLeave(c2: seq<seq<real>>, h: map<string, nat>, j: nat)
    requires Timings(c2, h).Ok? && j < |c2|
    requires CreateTime in h ==> h[CreateTime] != j && ReturnTime in h && h[ReturnTime] != j
    requires SendTime in h && h[SendTime] != j && ReceiveTime in h && h[ReceiveTime] != j
    ensures Timings(c2, h).value[j] == c2[j]
  {
    var c4 := c2;
    if CreateTime in h {
      var c3 := Update(c2, h, CreateTime, MinutesDelta).value;
      UpdateElsewhere(c2, h, CreateTime, MinutesDelta, j);
      c4 := Update(c3, h, ReturnTime, MinutesDelta).value;
      UpdateElsewhere(c3, h, ReturnTime, MinutesDelta, j);
    }
    var c5 := Update(c4, h, SendTime, MinutesDelta).value;
    UpdateElsewhere(c4, h, SendTime, MinutesDelta, j);
    UpdateElsewhere(c5, h, ReceiveTime, MinutesDelta, j);
  }

  /** A header position holds its own name, so a position holding another name is not it. */
  lemma HeadersElsewhere(names: seq<string>, x: string, j: nat)
    requires j < |names| && names[j] != x
    ensures x in Headers(names) ==> Headers(names)[x] != j
  {
  }

  /** No timing name points at column j. */
  predicate TimingsAvoid(h: map<string, nat>, j: nat)
  {
    (CreateTime in h ==> h[CreateTime] != j) && (ReturnTime in h ==> h[ReturnTime] != j) &&
    (SendTime in h ==> h[SendTime] != j) && (ReceiveTime in h ==> h[ReceiveTime] != j)
  }

  /** The turnover columns after all rewrites, for a header whose names point at distinct columns. */
  lemma TurnoverOut(cols: seq<seq<real>>, h: map<string, nat>)
    requires |cols| > 0 && Normalise(cols, h).Ok?
    requires Joined in h && Removed in h && h[Joined] != 0 && h[Removed] != 0 && h[Joined] != h[Removed]
    requires TimingsAvoid(h, h[Joined]) && TimingsAvoid(h, h[Removed])
    ensures var out := Normalise(cols, h).value;
            h[Joined] < |out| == |cols| && h[Removed] < |cols| &&
            out[h[Joined]] == Apply(ClampedDelta, cols[h[Joined]]) &&
            out[h[Removed]] == Apply(ClampedDelta, cols[h[Removed]])
  {
    var c0 := cols[0 := Apply(ToSeconds, cols[0])];
    var j, r := h[Joined], h[Removed];
    var c1 := Update(c0, h, Joined, ClampedDelta).value;
    var c2 := Update(c1, h, Removed, ClampedDelta).value;
    assert c2 == Turnover(c0, h).value;
    UpdateElsewhere(c1, h, Removed, ClampedDelta, j);
    assert c2[j] == Apply(ClampedDelta, cols[j]);
    assert c2[r] == Apply(ClampedDelta, cols[r]);
    assert Timings(c2, h).Ok?;
    TimingsLeave(c2, h, j);
    TimingsLeave(c2, h, r);
  }

  /**
    The worker turnover columns: each becomes `max(0, cur - prev)` of the
    counter as logged (row 0 against the last row), so none of its entries is
    negative, provided the header does not name the time column after either
    counter.
  */
  lemma TurnoverColumns(cols: seq<seq<real>>, names: seq<string>, n: nat)
    requires Shaped(cols, n)
    requires |names| > 0 && names[0] != Joined && names[0] != Removed
    requires Normalise(cols, Headers(names)).Ok?
    ensures var h := Headers(names);
            var out := Normalise(cols, h).value;
            Joined in h && Removed in h && h[Joined] < |out| && h[Removed] < |out| &&
            out[h[Joined]] == Apply(ClampedDelta, cols[h[Joined]]) &&
            out[h[Removed]] == Apply(ClampedDelta, cols[h[Removed]]) &&
            forall i :: 0 <= i < n ==> out[h[Joined]][i] >= 0.0 && out[h[Removed]][i] >= 0.0
  {
    var h := Headers(names);
    assert Joined in h && Removed in h;
    var j, r := h[Joined], h[Removed];
    HeadersElsewhere(names, Joined, 0);
    HeadersElsewhere(names, Removed, 0);
    HeadersInjective(names, Joined, Removed);
    HeadersElsewhere(names, CreateTime, j);
    HeadersElsewhere(names, ReturnTime, j);
    HeadersElsewhere(names, SendTime, j);
    HeadersElsewhere(names, ReceiveTime, j);
    HeadersElsewhere(names, CreateTime, r);
    HeadersElsewhere(names, ReturnTime, r);
    HeadersElsewhere(names, SendTime, r);
    HeadersElsewhere(names, ReceiveTime, r);
    TurnoverOut(cols, h);
    ClampedNonNegative(cols[j]);
    ClampedNonNegative(cols[r]);
  }

  /** No two names of a header dictionary point at the same column. */
  predicate Injective(h: map<string, nat>)
  {
    forall x, y :: x in h && y in h && x != y ==> h[x] != h[y]
  }

  lemma HeadersDistinct(names: seq<string>)
    ensures Injective(Headers(names))
  {
    var h := Headers(names);
    forall x, y | x in h && y in h && x != y ensures h[x] != h[y] {
      HeadersInjective(names, x, y);
    }
  }

  /** The turnover rewrites leave every column but the two counters as it was. */
  lemma TurnoverLeave(c0: seq<seq<real>>, h: map<string, nat>, j: nat)
    requires Turnover(c0, h).Ok? && j < |c0|
    requires Joined in h && Removed in h && h[Joined] != j && h[Removed] != j
    ensures Turnover(c0, h).value[j] == c0[j]
  {
    var c1 := Update(c0, h, Joined, ClampedDelta).value;
    UpdateElsewhere(c0, h, Joined, ClampedDelta, j);
    UpdateElsewhere(c1, h, Removed, ClampedDelta, j);
  }

  /**
    The send and receive columns after the timing rewrites are the
    minute differences of the columns before them.
  */
  lemma TimingsSendReceive(c2: seq<seq<real>>, h: map<string, nat>)
    requires Timings(c2, h).Ok? && Injective(h)
    ensures var out := Timings(c2, h).value;
            SendTime in h && ReceiveTime in h && |out| == |c2| && h[SendTime] < |c2| && h[ReceiveTime] < |c2| &&
            out[h[SendTime]] == Apply(MinutesDelta, c2[h[SendTime]]) &&
            out[h[ReceiveTime]] == Apply(MinutesDelta, c2[h[ReceiveTime]])
  {
    var c4 := c2;
    if CreateTime in h {
      var c3 := Update(c2, h, CreateTime, MinutesDelta).value;
      c4 := Update(c3, h, ReturnTime, MinutesDelta).value;
      UpdateElsewhere(c2, h, CreateTime, MinutesDelta, h[SendTime]);
      UpdateElsewhere(c3, h, ReturnTime, MinutesDelta, h[SendTime]);
      UpdateElsewhere(c2, h, CreateTime, MinutesDelta, h[ReceiveTime]);
      UpdateElsewhere(c3, h, ReturnTime, MinutesDelta, h[ReceiveTime]);
    }
    var c5 := Update(c4, h, SendTime, MinutesDelta).value;
    UpdateElsewhere(c4, h, SendTime, MinutesDelta, h[ReceiveTime]);
    UpdateElsewhere(c5, h, ReceiveTime, MinutesDelta, h[SendTime]);
  }

  /**
    The create and return columns after the timing rewrites: the minute
    differences of the columns before them when the header names the create
    time, and the return column untouched when it does not.
  */
  lemma TimingsCreateReturn(c2: seq<seq<real>>, h: map<string, nat>)
    requires Timings(c2, h).Ok? && Injective(h)
    ensures var out := Timings(c2, h).value;
            CreateTime in h ==>
              ReturnTime in h && h[CreateTime] < |c2| && h[ReturnTime] < |c2| &&
              out[h[CreateTime]] == Apply(MinutesDelta, c2[h[CreateTime]]) &&
              out[h[ReturnTime]] == Apply(MinutesDelta, c2[h[ReturnTime]])
    ensures CreateTime !in h && ReturnTime in h && h[ReturnTime] < |c2| ==>
              Timings(c2, h).value[h[ReturnTime]] == c2[h[ReturnTime]]
  {
    var c4 := c2;
    if CreateTime in h {
      var c3 := Update(c2, h, CreateTime, MinutesDelta).value;
      c4 := Update(c3, h, ReturnTime, MinutesDelta).value;
      UpdateElsewhere(c3, h, ReturnTime, MinutesDelta, h[CreateTime]);
    }
    var c5 := Update(c4, h, SendTime, MinutesDelta).value;
    if CreateTime in h || (ReturnTime in h && h[ReturnTime] < |c2|) {
      var j := if CreateTime in h then h[CreateTime] else h[ReturnTime];
      UpdateElsewhere(c4, h, SendTime, MinutesDelta, j);
      UpdateElsewhere(c5, h, ReceiveTime, MinutesDelta, j);
      if CreateTime in h {
        UpdateElsewhere(c4, h, SendTime, MinutesDelta, h[ReturnTime]);
        UpdateElsewhere(c5, h, ReceiveTime, MinutesDelta, h[ReturnTime]);
      }
    }
  }

  /**
    A timing column reaches the timing rewrites as it was logged: the header
    names it at a column other than the time column, so neither the unit
    conversion nor the turnover rewrites touch it.
  */
  lemma TimingInput(cols: seq<seq<real>>, names: seq<string>, x: string)
    requires |names| > 0 && names[0] != x && x != Joined && x != Removed
    requires Normalise(cols, Headers(names)).Ok?
    requires x in Headers(names) && Headers(names)[x] < |cols|
    ensures var h := Headers(names);
            var c0 := cols[0 := Apply(ToSeconds, cols[0])];
            Turnover(c0, h).Ok? && Turnover(c0, h).value[h[x]] == cols[h[x]]
  {
    var h := Headers(names);
    var c0 := cols[0 := Apply(ToSeconds, cols[0])];
    HeadersElsewhere(names, x, 0);
    HeadersDistinct(names);
    assert Turnover(c0, h).Ok?;
    TurnoverLeave(c0, h, h[x]);
  }

  /**
    The timing columns `readlog` returns: send and receive time, and create
    and return time when the header names the create time, each become the
    unclamped difference against `np.roll` of the column as logged, in
    minutes; without the create time the return column is left as logged.
  */
  lemma TimingColumns(cols: seq<seq<real>>, names: seq<string>)
    requires |names| > 0 && names[0] != CreateTime && names[0] != ReturnTime
    requires names[0] != SendTime && names[0] != ReceiveTime
    requires Normalise(cols, Headers(names)).Ok?
    ensures var h := Headers(names);
            var out := Normalise(cols, h).value;
            SendTime in h && ReceiveTime in h && |out| == |cols| && h[SendTime] < |cols| && h[ReceiveTime] < |cols| &&
            out[h[SendTime]] == Apply(MinutesDelta, cols[h[SendTime]]) &&
            out[h[ReceiveTime]] == Apply(MinutesDelta, cols[h[ReceiveTime]])
    ensures var h := Headers(names);
            var out := Normalise(cols, h).value;
            CreateTime in h ==>
              ReturnTime in h && h[CreateTime] < |cols| && h[ReturnTime] < |cols| &&
              out[h[CreateTime]] == Apply(MinutesDelta, cols[h[CreateTime]]) &&
              out[h[ReturnTime]] == Apply(MinutesDelta, cols[h[ReturnTime]])
    ensures var h := Headers(names);
            CreateTime !in h && ReturnTime in h && h[ReturnTime] < |cols| ==>
              Normalise(cols, h).value[h[ReturnTime]] == cols[h[ReturnTime]]
  {
    var h := Headers(names);
    HeadersDistinct(names);
    var c0 := cols[0 := Apply(ToSeconds, cols[0])];
    var c2 := Turnover(c0, h).value;
    assert Normalise(cols, h) == Timings(c2, h);
    TimingsSendReceive(c2, h);
    TimingsCreateReturn(c2, h);
    TimingInput(cols, names, SendTime);
    TimingInput(cols, names, ReceiveTime);
    if CreateTime in h {
      TimingInput(cols, names, CreateTime);
      TimingInput(cols, names, ReturnTime);
    } else if ReturnTime in h && h[ReturnTime] < |cols| {
      TimingInput(cols, names, ReturnTime);
    }
  }

  /** `np.maximum(..., 0)` leaves no negative entry. */
  lemma ClampedNonNegative(c: seq<real>)
    ensures forall i :: 0 <= i < |c| ==> Apply(ClampedDelta, c)[i] >= 0.0
  {
  }

  /**
    The differenced counters recover the counter: from row 1 on, the deltas
    add up to the growth of the counter since row 0 (in minutes), while row 0
    holds the wrap-around difference against the last row.
  */
  lemma {:induction false} MinutesDeltasTelescope(c: seq<real>, k: nat)
    requires 0 < k < |c|
    ensures Sum(Apply(MinutesDelta, c)[1..k + 1]) == (c[k] - c[0]) / 60000000.0
    ensures Apply(MinutesDelta, c)[0] == (c[0] - c[|c| - 1]) / 60000000.0
  {
    var d := Apply(MinutesDelta, c);
    var s := d[1..k + 1];
    assert s[..|s| - 1] == d[1..k];
    if k > 1 {
      MinutesDeltasTelescope(c, k - 1);
    } else {
      assert s == [d[1]];
      assert s[..0] == [];
    }
    assert Sum(s) == Sum(d[1..k]) + d[k];
  }

  /**
    The window cut: the returned rows are exactly the rows whose time lies in
    [lo, hi], each once and in their original order.
  */
  lemma WindowRows(rows: seq<seq<real>>, t: seq<real>, lo: real, hi: real)
    requires |rows| == |t|
    ensures var m := WindowMask(t, lo, hi);
            var out := Select(rows, m);
            var ix := TrueIndices(m);
            |out| == |ix| &&
            (forall k :: 0 <= k < |out| ==> out[k] == rows[ix[k]] && lo <= t[ix[k]] <= hi) &&
            (forall k, l :: 0 <= k < l < |ix| ==> ix[k] < ix[l]) &&
            (forall i :: 0 <= i < |t| && lo <= t[i] <= hi ==> i in ix)
  {
    SelectAt(rows, WindowMask(t, lo, hi));
  }

  /** The column-major view of the stats matrix. */
  ghost function Cols(stats: array2<real>): (cols: seq<seq<real>>)
    reads stats
    ensures |cols| == stats.Length1 && Shaped(cols, stats.Length0)
  {
    seq(stats.Length1, j requires 0 <= j < stats.Length1 reads stats =>
      seq(stats.Length0, i requires 0 <= i < stats.Length0 reads stats => stats[i, j]))
  }

  /** One in-place column rewrite; the right-hand side is computed from a copy of the column first. */
  method ApplyColumn(stats: array2<real>, j: nat, op: ColumnOp)
    requires j < stats.Length1
    modifies stats
    ensures Cols(stats) == old(Cols(stats))[j := Apply(op, old(Cols(stats))[j])]
  {
    var n := stats.Length0;
    ghost var before := Cols(stats);
    var c := seq(n, i requires 0 <= i < n reads stats => stats[i, j]);
    assert c == before[j];
    forall i | 0 <= i < n {
      stats[i, j] := Step(op, c, i);
    }
    ghost var after := before[j := Apply(op, c)];
    forall k | 0 <= k < stats.Length1 ensures Cols(stats)[k] == after[k] {
      assert |Cols(stats)[k]| == |after[k]| == n;
    }
  }

  /** `stats[:, headers[name]]` rewritten in place; the error of Update when there is one. */
  method UpdateColumn(stats: array2<real>, h: map<string, nat>, name: string, op: ColumnOp) returns (e: Option<PyError>)
    modifies stats
    ensures var u := Update(old(Cols(stats)), h, name, op);
            (u.Err? ==> e == Some(u.error) && Cols(stats) == old(Cols(stats))) &&
            (u.Ok? ==> e == None && Cols(stats) == u.value)
  {
    if name !in h {
      return Some(KeyError);
    }
    if h[name] >= stats.Length1 {
      return Some(IndexError);
    }
    ApplyColumn(stats, h[name], op);
    return None;
  }

  /** The turnover rewrites in place, as Turnover. */
  method TurnoverInPlace(stats: array2<real>, h: map<string, nat>) returns (e: Option<PyError>)
    modifies stats
    ensures var u := Turnover(old(Cols(stats)), h);
            (u.Err? ==> e == Some(u.error)) && (u.Ok? ==> e == None && Cols(stats) == u.value)
  {
    e := UpdateColumn(stats, h, Joined, ClampedDelta);
    if e.Some? { return; }
    e := UpdateColumn(stats, h, Removed, ClampedDelta);
  }

  /** The timing rewrites in place, as Timings. */
  method TimingsInPlace(stats: array2<real>, h: map<string, nat>) returns (e: Option<PyError>)
    modifies stats
    ensures var u := Timings(old(Cols(stats)), h);
            (u.Err? ==> e == Some(u.error)) && (u.Ok? ==> e == None && Cols(stats) == u.value)
  {
    if CreateTime in h {
      e := UpdateColumn(stats, h, CreateTime, MinutesDelta);
      if e.Some? { return; }
      e := UpdateColumn(stats, h, ReturnTime, MinutesDelta);
      if e.Some? { return; }
    }
    e := UpdateColumn(stats, h, SendTime, MinutesDelta);
    if e.Some? { return; }
    e := UpdateColumn(stats, h, ReceiveTime, MinutesDelta);
  }

  /** All counter rewrites in place, as Counters. */
  method CountersInPlace(stats: array2<real>, h: map<string, nat>) returns (e: Option<PyError>)
    modifies stats
    ensures var u := Counters(old(Cols(stats)), h);
            (u.Err? ==> e == Some(u.error)) && (u.Ok? ==> e == None && Cols(stats) == u.value)
  {
    e := TurnoverInPlace(stats, h);
    if e.Some? { return; }
    e := TimingsInPlace(stats, h);
  }

  /** Both normalisation steps of `readlog`: the time column to seconds, then the counter columns. */
  method NormaliseInPlace(stats: array2<real>, h: map<string, nat>) returns (e: Option<PyError>)
    modifies stats
    ensures var u := Normalise(old(Cols(stats)), h);
            (u.Err? ==> e == Some(u.error)) && (u.Ok? ==> e == None && Cols(stats) == u.value)
  {
    if stats.Length1 == 0 {
      return Some(IndexError);
    }
    ApplyColumn(stats, 0, ToSeconds);
    e := CountersInPlace(stats, h);
  }

  /** The matrix as a value, column by column. */
  method Snapshot(stats: array2<real>) returns (cols: seq<seq<real>>)
    ensures cols == Cols(stats)
  {
    cols := seq(stats.Length1, j requires 0 <= j < stats.Length1 reads stats =>
      seq(stats.Length0, i requires 0 <= i < stats.Length0 reads stats => stats[i, j]));
  }

  /** The state of `Plotter` that readlog reads and writes: the plotting window and the run's bounds. */
  class Plotter {
    var xmin: Option<real>
    var xmax: Option<real>
    var totalXmin: Option<real>
    var totalXmax: Option<real>

    constructor ()
      ensures xmin == None && xmax == None && totalXmin == None && totalXmax == None
    {
      xmin, xmax, totalXmin, totalXmax := None, None, None, None;
    }

    /** The window of a report (`make_plots` storing its parsed xmin and xmax). */
    method SetWindow(lo: Option<real>, hi: Option<real>)
      modifies this
      ensures xmin == lo && xmax == hi
      ensures totalXmin == old(totalXmin) && totalXmax == old(totalXmax)
    {
      xmin, xmax := lo, hi;
    }

    /**
      `readlog` on the header tokens and the table of the log's data lines;
      `primary` is the call without a file name (the master log).
      `np.loadtxt` squeezes a table with at most one row or at most one
      column to fewer dimensions, and `stats[:,0]` then raises IndexError
      before anything is rewritten; any other table is read by ReadTable.
    */
    method ReadLog(names: seq<string>, stats: array2<real>, primary: bool)
      returns (r: Result<(map<string, nat>, seq<seq<real>>)>)
      requires !primary ==> xmin.Some? && xmax.Some?
      modifies this, stats
      ensures stats.Length0 <= 1 || stats.Length1 <= 1 ==>
                r == Err(IndexError) && Cols(stats) == old(Cols(stats)) &&
                xmin == old(xmin) && xmax == old(xmax) && totalXmin == old(totalXmin) && totalXmax == old(totalXmax)
      ensures var norm := Normalise(old(Cols(stats)), Headers(names));
              stats.Length0 > 1 && stats.Length1 > 1 ==>
                (norm.Err? ==> r == Err(norm.error)) &&
                (norm.Ok? ==> r.Ok? && Cols(stats) == norm.value)
      ensures r.Err? <==> stats.Length0 <= 1 || stats.Length1 <= 1 || Normalise(old(Cols(stats)), Headers(names)).Err?
      ensures r.Err? || !primary ==>
                xmin == old(xmin) && xmax == old(xmax) && totalXmin == old(totalXmin) && totalXmax == old(totalXmax)
      ensures r.Ok? && primary ==>
                var t := Cols(stats)[0];
                totalXmin == Some(t[0]) && totalXmax == Some(t[|t| - 1]) &&
                xmin == (if Unset(old(xmin)) then Some(t[0]) else old(xmin)) &&
                xmax == (if Unset(old(xmax)) then Some(t[|t| - 1]) else old(xmax))
      ensures r.Ok? ==>
                xmin.Some? && xmax.Some? && r.value.0 == Headers(names) &&
                r.value.1 == Select(Rows(Cols(stats), stats.Length0), WindowMask(Cols(stats)[0], xmin.value, xmax.value))
    {
      if stats.Length0 <= 1 || stats.Length1 <= 1 {
        return Err(IndexError);
      }
      r := ReadTable(names, stats, primary);
    }

    /**
      `readlog` once the table is two-dimensional (ReadLog passes only
      tables of at least two rows and two columns): the columns are
      rewritten in place, the primary log records its first and last
      times as the run bounds and fills unset window bounds with them, and
      the result is the header dictionary and the rows inside the window.
    */
    method ReadTable(names: seq<string>, stats: array2<real>, primary: bool)
      returns (r: Result<(map<string, nat>, seq<seq<real>>)>)
      requires stats.Length0 > 0 && stats.Length1 > 0
      requires !primary ==> xmin.Some? && xmax.Some?
      modifies this, stats
      ensures var norm := Normalise(old(Cols(stats)), Headers(names));
              (norm.Err? ==> r == Err(norm.error)) &&
              (norm.Ok? ==> Cols(stats) == norm.value)
      ensures r.Err? <==> Normalise(old(Cols(stats)), Headers(names)).Err?
      ensures r.Err? || !primary ==>
                xmin == old(xmin) && xmax == old(xmax) && totalXmin == old(totalXmin) && totalXmax == old(totalXmax)
      ensures r.Ok? && primary ==>
                var t := Cols(stats)[0];
                totalXmin == Some(t[0]) && totalXmax == Some(t[|t| - 1]) &&
                xmin == (if Unset(old(xmin)) then Some(t[0]) else old(xmin)) &&
                xmax == (if Unset(old(xmax)) then Some(t[|t| - 1]) else old(xmax))
      ensures r.Ok? ==>
                stats.Length1 > 0 && xmin.Some? && xmax.Some? && r.value.0 == Headers(names) &&
                r.value.1 == Select(Rows(Cols(stats), stats.Length0), WindowMask(Cols(stats)[0], xmin.value, xmax.value))
    {
      var n := stats.Length0;
      var h := Headers(names);
      var e := NormaliseInPlace(stats, h);
      if e.Some? { return Err(e.value); }
      if primary {
        RecordRun(stats[0, 0], stats[n - 1, 0]);
      }
      var cols := Snapshot(stats);
      r := Ok((h, Select(Rows(cols, n), WindowMask(cols[0], xmin.value, xmax.value))));
    }

    /** The primary log's first and last times become the run bounds and fill the unset window bounds. */
    method RecordRun(first: real, last: real)
      modifies this
      ensures totalXmin == Some(first) && totalXmax == Some(last)
      ensures xmin == (if Unset(old(xmin)) then Some(first) else old(xmin))
      ensures xmax == (if Unset(old(xmax)) then Some(last) else old(xmax))
    {
      totalXmin := Some(first);
      totalXmax := Some(last);
      if Unset(xmin) {
        xmin := Some(first);
      }
      if Unset(xmax) {
        xmax := Some(last);
      }
    }
  }
}
