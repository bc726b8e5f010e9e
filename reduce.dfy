/**
  Down-sampling of a gauge time series for plotting (`reduce` in
  lobster/cmssw/plotting.py). The rows are scanned in order; the first and the
  last row are always kept, and an interior row is kept when it, or the row
  after it, lies more than `interval` beyond the value of the last kept row.
*/
module Decimation {
  import opened Common

  /** A numpy 2-d array: every row has the same width. */
  predicate IsMatrix(a: seq<seq<real>>)
  {
    forall i :: 0 <= i < |a| ==> |a[i]| == |a[0]|
  }

  /** `a[:, idx]`. */
  function Column(a: seq<seq<real>>, idx: nat): (c: seq<real>)
    requires forall i :: 0 <= i < |a| ==> idx < |a[i]|
    ensures |c| == |a| && forall i :: 0 <= i < |a| ==> c[i] == a[i][idx]
  {
    seq(|a|, i requires 0 <= i < |a| => a[i][idx])
  }

  /**
    The column a numpy index `idx` names in an array `width` columns wide:
    a negative index counts from the end, `-1` being the last column.
  */
  function ColumnIndex(width: nat, idx: int): (j: nat)
    requires -(width as int) <= idx < width
    ensures j < width
    ensures idx >= 0 ==> j == idx
    ensures idx < 0 ==> j as int == width as int + idx
  {
    if idx >= 0 then idx else width + idx
  }

  /**
    The scan after it has decided rows 0 .. k-1: the selection so far and the
    value of the last kept row (`select[:k]` and `last` in the loop).
  */
  function Scan(quant: seq<real>, interval: real, k: nat): (s: (seq<bool>, real))
    requires 1 <= k < |quant|
    ensures |s.0| == k
  {
    if k == 1 then ([true], quant[0])
    else
      var (m, last) := Scan(quant, interval, k - 1);
      var i := k - 1;
      var keep := quant[i] - last > interval || quant[i + 1] - last > interval;
      (m + [keep], if keep then quant[i] else last)
  }

  /** The selection mask `reduce` computes for a non-empty column. */
  function KeepMask(quant: seq<real>, interval: real): seq<bool>
    requires |quant| > 0
  {
    if |quant| == 1 then [true] else Scan(quant, interval, |quant| - 1).0 + [true]
  }

  /** The position of the last true entry of `m` before position i. */
  function LastKept(m: seq<bool>, i: nat): (r: nat)
    requires 0 < i <= |m| && m[0]
    ensures r < i && m[r]
    ensures forall j :: r < j < i ==> !m[j]
  {
    if m[i - 1] then i - 1 else LastKept(m, i - 1)
  }

  lemma {:induction false} ScanTracksLastKept(quant: seq<real>, interval: real, k: nat)
    requires 1 <= k < |quant|
    ensures Scan(quant, interval, k).0[0]
    ensures Scan(quant, interval, k).1 == quant[LastKept(Scan(quant, interval, k).0, k)]
  {
    if k > 1 {
      ScanTracksLastKept(quant, interval, k - 1);
      var m := Scan(quant, interval, k - 1).0;
      var m' := Scan(quant, interval, k).0;
      assert m' == m + [m'[k - 1]];
      assert m'[..k - 1] == m;
      LastKeptOfPrefix(m', m, k - 1);
    }
  }

  /** LastKept only looks at the entries before i. */
  lemma LastKeptOfPrefix(m: seq<bool>, p: seq<bool>, i: nat)
    requires 0 < i <= |m| && 0 < i <= |p| && m[0]
    requires m[..i] == p[..i]
    ensures p[0] && LastKept(m, i) == LastKept(p, i)
  {
    assert m[0] == m[..i][0] == p[..i][0] == p[0];
    var r, s := LastKept(m, i), LastKept(p, i);
    assert forall j :: 0 <= j < i ==> m[j] == m[..i][j] == p[..i][j] == p[j];
  }

  lemma {:induction false} ScanPrefix(quant: seq<real>, interval: real, k: nat, k': nat)
    requires 1 <= k <= k' < |quant|
    ensures Scan(quant, interval, k').0[..k] == Scan(quant, interval, k).0
    decreases k' - k
  {
    if k < k' {
      ScanPrefix(quant, interval, k, k' - 1);
      var m := Scan(quant, interval, k' - 1).0;
      assert Scan(quant, interval, k').0[..k' - 1] == m;
      assert Scan(quant, interval, k').0[..k] == m[..k];
    }
  }

  /** The selection always holds the first and the last row. */
  lemma KeepMaskEnds(quant: seq<real>, interval: real)
    requires |quant| > 0
    ensures |KeepMask(quant, interval)| == |quant|
    ensures KeepMask(quant, interval)[0] && KeepMask(quant, interval)[|quant| - 1]
  {
    if |quant| > 1 {
      ScanTracksLastKept(quant, interval, |quant| - 1);
    }
  }

  /**
    The rule `reduce` applies: an interior row i is kept exactly when its
    value, or the next row's value, exceeds the value of the last kept row
    before i by more than `interval`.
  */
  lemma KeepMaskRule(quant: seq<real>, interval: real, i: nat)
    requires 0 < i < |quant| - 1
    ensures var m := KeepMask(quant, interval);
            |m| == |quant| && m[0] &&
            var last := quant[LastKept(m, i)];
            m[i] <==> quant[i] - last > interval || quant[i + 1] - last > interval
  {
    var n := |quant|;
    var m := KeepMask(quant, interval);
    KeepMaskEnds(quant, interval);
    ScanPrefix(quant, interval, i + 1, n - 1);
    ScanPrefix(quant, interval, i, n - 1);
    ScanTracksLastKept(quant, interval, i);
    var mi := Scan(quant, interval, i).0;
    assert m[..n - 1] == Scan(quant, interval, n - 1).0;
    assert m[..i] == mi[..i] by {
      assert m[..i] == m[..n - 1][..i];
    }
    LastKeptOfPrefix(m, mi, i);
    assert m[i] == Scan(quant, interval, i + 1).0[i] by {
      assert m[i] == m[..n - 1][i];
      assert m[..n - 1][..i + 1] == Scan(quant, interval, i + 1).0;
    }
  }

  /** One pass of the loop: row i is decided against the value of the last kept row. */
  lemma ScanStep(quant: seq<real>, interval: real, i: nat, before: seq<bool>, was: real, keep: bool)
    requires 1 <= i < |quant| - 1 && Scan(quant, interval, i) == (before, was)
    requires keep <==> quant[i] - was > interval || quant[i + 1] - was > interval
    ensures Scan(quant, interval, i + 1) == (before + [keep], if keep then quant[i] else was)
  {
  }

  /** The loop of `reduce` over the column `quant`, filling the boolean array `select`. */
  method ScanMask(quant: seq<real>, interval: real) returns (mask: seq<bool>)
    requires |quant| > 0
    ensures mask == KeepMask(quant, interval)
  {
    var n := |quant|;
    var select := new bool[n](_ => true);
    if n == 1 {
      return select[..];
    }
    var last := quant[0];
    var i := 1;
    assert select[..1] == [true];
    while i < n - 1
      invariant 1 <= i <= n - 1
      invariant (select[..i], last) == Scan(quant, interval, i)
      invariant select[n - 1]
    {
      ghost var before := select[..i];
      ghost var was := last;
      var keep := quant[i] - last > interval || quant[i + 1] - last > interval;
      select[i] := keep;
      if keep {
        last := quant[i];
      }
      ScanStep(quant, interval, i, before, was, keep);
      assert select[..i + 1] == before + [keep];
      i := i + 1;
    }
    assert select[..] == select[..n - 1] + [select[n - 1]];
    mask := select[..];
  }

  /**
    `reduce(a, idx, interval)`: IndexError on an empty array or an index
    outside `-width .. width - 1`; otherwise the rows the scan of the column
    `idx` names keeps, in their order.
  */
  method Reduce(a: seq<seq<real>>, idx: int, interval: real) returns (r: Result<seq<seq<real>>>)
    requires IsMatrix(a)
    ensures r.Err? <==> |a| == 0 || idx >= |a[0]| || idx < -|a[0]|
    ensures r.Err? ==> r.error == IndexError
    ensures r.Ok? ==> r.value == Select(a, KeepMask(Column(a, ColumnIndex(|a[0]|, idx)), interval))
  {
    if |a| == 0 || idx >= |a[0]| || idx < -|a[0]| {
      return Err(IndexError);
    }
    var j := ColumnIndex(|a[0]|, idx);
    var mask := ScanMask(Column(a, j), interval);
    r := Ok(Select(a, mask));
  }

  /**
    What `reduce` returns, stated without the scan: the first and the last
    input rows lead and end the result, and the result is the input rows at
    the kept positions, strictly ascending, so the order is preserved.
  */
  lemma ReducedRows(a: seq<seq<real>>, idx: nat, interval: real)
    requires IsMatrix(a) && |a| > 0 && idx < |a[0]|
    ensures var m := KeepMask(Column(a, idx), interval);
            var r := Select(a, m);
            |m| == |a| && |r| == |TrueIndices(m)| > 0 &&
            r[0] == a[0] && r[|r| - 1] == a[|a| - 1] &&
            (forall k :: 0 <= k < |r| ==> r[k] == a[TrueIndices(m)[k]])
  {
    var quant := Column(a, idx);
    var m := KeepMask(quant, interval);
    KeepMaskEnds(quant, interval);
    SelectAt(a, m);
    var ix := TrueIndices(m);
    assert 0 in ix && |a| - 1 in ix;
    assert ix[0] == 0;
    assert ix[|ix| - 1] == |a| - 1;
  }
}
