/**
  The arithmetic of `make_pie` in lobster/cmssw/plotting.py: negative slice
  values are clamped to 0, and the slices are labelled in place unless some
  slice is below 1% of the total, in which case a legend is drawn instead.
  The drawing itself is not part of this model.
*/
module Pie {
  import opened Common

  /** How the slices are annotated: a legend beside the pie, or labels on the slices. */
  datatype Annotation = Legend | Labels

  /** `[max(0, val) for val in vals]`. */
  function Clamp(vals: seq<real>): (c: seq<real>)
    ensures |c| == |vals|
    ensures forall i :: 0 <= i < |vals| ==> c[i] >= 0.0 && (vals[i] >= 0.0 ==> c[i] == vals[i]) && (vals[i] < 0.0 ==> c[i] == 0.0)
  {
    seq(|vals|, i requires 0 <= i < |vals| => Max(0.0, vals[i]))
  }

  /**
    The choice `make_pie` makes. The list `[float(v)/sum(vals) for v in vals]`
    is built in full before `any` looks at it, so a non-empty list of values
    that all clamp to 0 raises ZeroDivisionError; an empty list gets labels.
  */
  function Annotate(vals: seq<real>): Result<Annotation>
  {
    var c := Clamp(vals);
    if c == [] then Ok(Labels)
    else if Sum(c) == 0.0 then Err(ZeroDivisionError)
    else if exists i :: 0 <= i < |c| && c[i] / Sum(c) < 0.01 then Ok(Legend)
    else Ok(Labels)
  }

  /** A sum of non-negative values is non-negative, and 0 exactly when every value is 0. */
  lemma {:induction false} SumZeroIff(xs: seq<real>)
    requires forall i :: 0 <= i < |xs| ==> xs[i] >= 0.0
    ensures Sum(xs) >= 0.0
    ensures Sum(xs) == 0.0 <==> forall i :: 0 <= i < |xs| ==> xs[i] == 0.0
    decreases |xs|
  {
    if xs != [] {
      var p := xs[..|xs| - 1];
      forall i | 0 <= i < |p| ensures p[i] == xs[i] >= 0.0 {
      }
      SumZeroIff(p);
    }
  }

  /** `make_pie` raises exactly when there are values and none of them is positive. */
  lemma AnnotateRaisesIff(vals: seq<real>)
    ensures Annotate(vals).Err? <==> |vals| > 0 && forall i :: 0 <= i < |vals| ==> vals[i] <= 0.0
    ensures Annotate(vals).Err? ==> Annotate(vals).error == ZeroDivisionError
  {
    var c := Clamp(vals);
    SumZeroIff(c);
  }

  /**
    When it does not raise, a legend is drawn exactly when some clamped value
    is below a hundredth of the clamped total (the division stated without
    dividing).
  */
  lemma LegendIff(vals: seq<real>)
    requires Annotate(vals).Ok?
    ensures var c := Clamp(vals);
            Annotate(vals).value == Legend <==> exists i :: 0 <= i < |c| && c[i] < Sum(c) / 100.0
  {
    var c := Clamp(vals);
    if c != [] {
      var s := Sum(c);
      SumZeroIff(c);
      forall i | 0 <= i < |c| ensures c[i] / s < 0.01 <==> c[i] < s / 100.0 {
        BelowHundredth(c[i], s);
      }
    }
  }

  lemma BelowHundredth(x: real, s: real)
    requires s > 0.0
    ensures x / s < 0.01 <==> x < s / 100.0
  {
    var q := x / s;
    assert q * s == x;
    if q < 0.01 {
      assert q * s < 0.01 * s;
    } else {
      assert q * s >= 0.01 * s;
    }
  }

  lemma Proportion(x: real, s: real)
    requires 0.0 <= x <= s && s > 0.0
    ensures 0.0 <= x / s <= 1.0
  {
    var q := x / s;
    assert q * s == x;
  }

  /** The shares of the slices: each clamped value over the clamped total. */
  function Fractions(vals: seq<real>): (f: seq<real>)
    requires Sum(Clamp(vals)) != 0.0
    ensures |f| == |vals|
  {
    var c := Clamp(vals);
    seq(|c|, i requires 0 <= i < |c| => c[i] / Sum(c))
  }

  lemma {:induction false} DivSum(xs: seq<real>, d: real, ys: seq<real>)
    requires d != 0.0 && |ys| == |xs| && forall i :: 0 <= i < |xs| ==> ys[i] == xs[i] / d
    ensures Sum(ys) == Sum(xs) / d
    decreases |xs|
  {
    if xs != [] {
      var n := |xs| - 1;
      var p, q := xs[..n], ys[..n];
      forall i | 0 <= i < n ensures q[i] == p[i] / d {
      }
      DivSum(p, d, q);
      var a, b := Sum(p), xs[n];
      assert a / d + b / d == (a + b) / d;
    }
  }

  /** The shares of a pie with a positive total add up to 1. */
  lemma FractionsWhole(vals: seq<real>)
    requires Sum(Clamp(vals)) != 0.0
    ensures Sum(Fractions(vals)) == 1.0
  {
    var c := Clamp(vals);
    var s := Sum(c);
    DivSum(c, s, Fractions(vals));
    assert s / s == 1.0;
  }

  /** Each share of a pie with a positive total lies in [0, 1]. */
  lemma FractionsBounded(vals: seq<real>)
    requires Sum(Clamp(vals)) != 0.0
    ensures forall i :: 0 <= i < |vals| ==> 0.0 <= Fractions(vals)[i] <= 1.0
  {
    var c, f := Clamp(vals), Fractions(vals);
    var s := Sum(c);
    SumZeroIff(c);
    forall i | 0 <= i < |vals| ensures 0.0 <= f[i] <= 1.0 {
      SumAtLeastEntry(c, i);
      Proportion(c[i], s);
    }
  }

  /** Every entry of a non-negative sequence is at most its sum. */
  lemma {:induction false} SumAtLeastEntry(xs: seq<real>, i: nat)
    requires i < |xs| && forall k :: 0 <= k < |xs| ==> xs[k] >= 0.0
    ensures xs[i] <= Sum(xs)
    decreases |xs|
  {
    var p := xs[..|xs| - 1];
    forall k | 0 <= k < |p| ensures p[k] == xs[k] >= 0.0 {
    }
    if i < |p| {
      SumAtLeastEntry(p, i);
    } else {
      SumZeroIff(p);
    }
  }

  /**
    More than 100 slices with a positive total always get a legend: they
    cannot all hold 1% or more of the total.
  */
  lemma ManySlicesGetLegend(vals: seq<real>)
    requires |vals| > 100 && exists i :: 0 <= i < |vals| && vals[i] > 0.0
    ensures Annotate(vals) == Ok(Legend)
  {
    var c := Clamp(vals);
    var j :| 0 <= j < |vals| && vals[j] > 0.0;
    SumZeroIff(c);
    SumAtLeastEntry(c, j);
    var s := Sum(c);
    var i := SmallSlice(c, s);
    BelowHundredth(c[i], s);
  }

  /** Among more than 100 non-negative values, some value is below 1% of their sum. */
  lemma SmallSlice(c: seq<real>, s: real) returns (i: nat)
    requires |c| > 100 && s == Sum(c) > 0.0 && forall k :: 0 <= k < |c| ==> c[k] >= 0.0
    ensures i < |c| && c[i] < s / 100.0
  {
    if k :| 0 <= k < |c| && c[k] < s / 100.0 {
      i := k;
    } else {
      forall k | 0 <= k < |c| ensures s / 100.0 <= c[k] <= s {
        SumAtLeastEntry(c, k);
      }
      SumBounds(c, s / 100.0, s);
      assert false;
    }
  }
}
