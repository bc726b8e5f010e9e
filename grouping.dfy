/**
  Grouping of table rows by the value of one column (`split_by_column` in
  lobster/cmssw/plotting.py). Rows are any type `R`; the grouping column is a
  function `col` from a row to its integer value (exit code, status).
*/
module Grouping {
  import opened Common

  predicate StrictlyIncreasing(xs: seq<int>)
  {
    forall i, j :: 0 <= i < j < |xs| ==> xs[i] < xs[j]
  }

  /** Inserts v into a strictly increasing sequence, dropping it if it is already there. */
  function Insert(u: seq<int>, v: int): (r: seq<int>)
    requires StrictlyIncreasing(u)
    ensures StrictlyIncreasing(r)
    ensures forall x :: x in r <==> x in u || x == v
  {
    if u == [] then [v]
    else
      HeadBelow(u);
      if v < u[0] then
        ConsIncreasing(v, u);
        [v] + u
      else if v == u[0] then u
      else
        var rest := Insert(u[1..], v);
        ConsIncreasing(u[0], rest);
        assert u == [u[0]] + u[1..];
        [u[0]] + rest
  }

  /** The head of a strictly increasing sequence is below every later element, and its tail is strictly increasing. */
  lemma HeadBelow(u: seq<int>)
    requires StrictlyIncreasing(u) && u != []
    ensures StrictlyIncreasing(u[1..])
    ensures forall x :: x in u[1..] ==> u[0] < x
  {
    var t := u[1..];
    forall x | x in t ensures u[0] < x {
      var i :| 0 <= i < |t| && t[i] == x;
      assert u[i + 1] == x;
    }
    forall i, j | 0 <= i < j < |t| ensures t[i] < t[j] {
      assert t[i] == u[i + 1] && t[j] == u[j + 1];
    }
  }

  /** A value below every element of a strictly increasing sequence can be put in front of it. */
  lemma ConsIncreasing(h: int, rest: seq<int>)
    requires StrictlyIncreasing(rest) && forall x :: x in rest ==> h < x
    ensures StrictlyIncreasing([h] + rest)
  {
    var r := [h] + rest;
    forall i, j | 0 <= i < j < |r| ensures r[i] < r[j] {
      assert r[j] == rest[j - 1];
      if i == 0 {
        assert rest[j - 1] in rest;
      } else {
        assert r[i] == rest[i - 1];
      }
    }
  }

  /** `np.unique`: the distinct values of xs, ascending. */
  function Unique(xs: seq<int>): (u: seq<int>)
    ensures StrictlyIncreasing(u)
    ensures forall x :: x in u <==> x in xs
  {
    if xs == [] then []
    else
      var p := xs[..|xs| - 1];
      assert forall x :: x in xs <==> x in p || x == xs[|xs| - 1];
      Insert(Unique(p), xs[|xs| - 1])
  }

  /** `a[col]`: the grouping column. */
  function Values<R>(a: seq<R>, col: R -> int): (vs: seq<int>)
    ensures |vs| == |a| && forall i :: 0 <= i < |a| ==> vs[i] == col(a[i])
  {
    seq(|a|, i requires 0 <= i < |a| => col(a[i]))
  }

  /** `a[a[col] == v]`: the rows whose column holds v, in their order. */
  function RowsWith<R>(a: seq<R>, col: R -> int, v: int): (g: seq<R>)
    ensures forall x :: x in g ==> x in a && col(x) == v
    ensures |g| > 0 <==> v in Values(a, col)
  {
    if a == [] then []
    else
      var p := a[..|a| - 1];
      var x := a[|a| - 1];
      assert a == p + [x];
      assert Values(a, col) == Values(p, col) + [col(x)];
      RowsWith(p, col, v) + (if col(x) == v then [x] else [])
  }

  /** The boolean mask `a[col] == v`. */
  function ValueMask<R>(a: seq<R>, col: R -> int, v: int): (m: seq<bool>)
    ensures |m| == |a|
  {
    seq(|a|, i requires 0 <= i < |a| => col(a[i]) == v)
  }

  /** RowsWith is numpy's selection with that mask. */
  lemma {:induction false} RowsWithSelect<R>(a: seq<R>, col: R -> int, v: int)
    ensures RowsWith(a, col, v) == Select(a, ValueMask(a, col, v))
    decreases |a|
  {
    if a != [] {
      var p := a[..|a| - 1];
      RowsWithSelect(p, col, v);
      assert ValueMask(a, col, v)[..|a| - 1] == ValueMask(p, col, v);
    }
  }

  /**
    A group is complete and keeps the input order: its rows are the rows of
    `a` at strictly increasing positions `idx`, and a position is among them
    exactly when its row holds v.
  */
  lemma RowsWithOrder<R>(a: seq<R>, col: R -> int, v: int) returns (idx: seq<nat>)
    ensures |idx| == |RowsWith(a, col, v)|
    ensures forall k, l :: 0 <= k < l < |idx| ==> idx[k] < idx[l]
    ensures forall k :: 0 <= k < |idx| ==> idx[k] < |a| && RowsWith(a, col, v)[k] == a[idx[k]]
    ensures forall i :: 0 <= i < |a| ==> (col(a[i]) == v <==> i in idx)
  {
    var m := ValueMask(a, col, v);
    idx := TrueIndices(m);
    RowsWithSelect(a, col, v);
    SelectAt(a, m);
    forall i | 0 <= i < |a| && i in idx ensures col(a[i]) == v {
      var k :| 0 <= k < |idx| && idx[k] == i;
    }
  }

  /** One group per value of ks, in the order of ks. */
  function GroupsOf<R>(a: seq<R>, col: R -> int, ks: seq<int>): (gs: seq<(int, seq<R>)>)
    ensures |gs| == |ks|
    ensures forall k :: 0 <= k < |ks| ==> gs[k] == (ks[k], RowsWith(a, col, ks[k]))
  {
    if ks == [] then [] else [(ks[0], RowsWith(a, col, ks[0]))] + GroupsOf(a, col, ks[1..])
  }

  /**
    `split_by_column(a, col)` without a threshold: one group per distinct
    value of the column, the values ascending, each group holding exactly the
    rows with that value in their original order, and none of them empty.
  */
  function Split<R>(a: seq<R>, col: R -> int): (gs: seq<(int, seq<R>)>)
    ensures forall i, j :: 0 <= i < j < |gs| ==> gs[i].0 < gs[j].0
    ensures forall v :: v in Values(a, col) <==> exists k :: 0 <= k < |gs| && gs[k].0 == v
    ensures forall k :: 0 <= k < |gs| ==> gs[k].1 == RowsWith(a, col, gs[k].0) && |gs[k].1| > 0
  {
    var ks := Unique(Values(a, col));
    var gs := GroupsOf(a, col, ks);
    GroupsKeys(a, col, ks);
    gs
  }

  /** The groups carry the values of ks, in their order; each value of ks labels some group. */
  lemma GroupsKeys<R>(a: seq<R>, col: R -> int, ks: seq<int>)
    ensures var gs := GroupsOf(a, col, ks);
            (forall k :: 0 <= k < |gs| ==> gs[k].0 == ks[k]) &&
            (forall v :: v in ks ==> exists k :: 0 <= k < |gs| && gs[k].0 == v)
  {
    var gs := GroupsOf(a, col, ks);
    forall v | v in ks ensures exists k :: 0 <= k < |gs| && gs[k].0 == v {
      var m :| 0 <= m < |ks| && ks[m] == v;
      assert gs[m].0 == v;
    }
  }

  /** All rows of the groups, group after group. */
  function Flatten<R>(gs: seq<seq<R>>): seq<R>
  {
    if gs == [] then [] else gs[0] + Flatten(gs[1..])
  }

  /** Number of rows in all groups. */
  function Size<R>(gs: seq<seq<R>>): nat
  {
    if gs == [] then 0 else |gs[0]| + Size(gs[1..])
  }

  function RowsOf<K, R>(gs: seq<(K, seq<R>)>): (rs: seq<seq<R>>)
    ensures |rs| == |gs| && forall k :: 0 <= k < |gs| ==> rs[k] == gs[k].1
  {
    seq(|gs|, k requires 0 <= k < |gs| => gs[k].1)
  }

  lemma {:induction false} FlattenSize<R>(gs: seq<seq<R>>)
    ensures |Flatten(gs)| == Size(gs)
  {
    if gs != [] {
      FlattenSize(gs[1..]);
    }
  }

  lemma {:induction false} FlattenAppend<R>(gs: seq<seq<R>>, hs: seq<seq<R>>)
    ensures Flatten(gs + hs) == Flatten(gs) + Flatten(hs)
  {
    if gs != [] {
      assert (gs + hs)[1..] == gs[1..] + hs;
      assert (gs + hs)[0] == gs[0];
      FlattenAppend(gs[1..], hs);
      assert Flatten(gs + hs) == gs[0] + (Flatten(gs[1..]) + Flatten(hs));
    } else {
      assert gs + hs == hs;
    }
  }

  /** The rows whose column value is among ks, in their order. */
  function RowsIn<R>(a: seq<R>, col: R -> int, ks: seq<int>): seq<R>
  {
    if a == [] then []
    else RowsIn(a[..|a| - 1], col, ks) + (if col(a[|a| - 1]) in ks then [a[|a| - 1]] else [])
  }

  lemma {:induction false} RowsInCons<R>(a: seq<R>, col: R -> int, k: int, ks: seq<int>)
    requires k !in ks
    ensures multiset(RowsIn(a, col, [k] + ks)) == multiset(RowsWith(a, col, k)) + multiset(RowsIn(a, col, ks))
  {
    if a != [] {
      var p, x := a[..|a| - 1], a[|a| - 1];
      RowsInCons(p, col, k, ks);
      assert col(x) in [k] + ks <==> col(x) == k || col(x) in ks;
    }
  }

  lemma {:induction false} RowsInNone<R>(a: seq<R>, col: R -> int)
    ensures RowsIn(a, col, []) == []
  {
    if a != [] {
      RowsInNone(a[..|a| - 1], col);
    }
  }

  lemma {:induction false} RowsInAll<R>(a: seq<R>, col: R -> int, ks: seq<int>)
    requires forall i :: 0 <= i < |a| ==> col(a[i]) in ks
    ensures RowsIn(a, col, ks) == a
  {
    if a != [] {
      var p := a[..|a| - 1];
      assert forall i :: 0 <= i < |p| ==> p[i] == a[i];
      RowsInAll(p, col, ks);
    }
  }

  lemma {:induction false} GroupsOfPartition<R>(a: seq<R>, col: R -> int, ks: seq<int>)
    requires StrictlyIncreasing(ks)
    ensures multiset(Flatten(RowsOf(GroupsOf(a, col, ks)))) == multiset(RowsIn(a, col, ks))
  {
    if ks != [] {
      var rest := ks[1..];
      GroupsOfPartition(a, col, rest);
      assert ks == [ks[0]] + rest;
      assert ks[0] !in rest;
      RowsInCons(a, col, ks[0], rest);
      var rs := RowsOf(GroupsOf(a, col, ks));
      assert rs[1..] == RowsOf(GroupsOf(a, col, rest));
      assert rs[0] == RowsWith(a, col, ks[0]);
      assert Flatten(rs) == rs[0] + Flatten(rs[1..]);
    } else {
      RowsInNone(a, col);
    }
  }

  /**
    The groups partition the rows: together they hold every input row exactly
    once (a permutation of the input), so the group sizes add up to len(a).
  */
  lemma SplitPartition<R>(a: seq<R>, col: R -> int)
    ensures multiset(Flatten(RowsOf(Split(a, col)))) == multiset(a)
    ensures Size(RowsOf(Split(a, col))) == |a|
  {
    var ks := Unique(Values(a, col));
    assert Split(a, col) == GroupsOf(a, col, ks);
    GroupsOfPartition(a, col, ks);
    assert forall i :: 0 <= i < |a| ==> col(a[i]) in ks by {
      forall i | 0 <= i < |a| ensures col(a[i]) in ks {
        assert Values(a, col)[i] == col(a[i]);
      }
    }
    RowsInAll(a, col, ks);
    var flat := Flatten(RowsOf(Split(a, col)));
    FlattenSize(RowsOf(Split(a, col)));
    assert |flat| == |multiset(flat)| == |multiset(a)| == |a|;
  }

  /**
    Each group of the split holds every row with its value and nothing else,
    in the order of the input: the rows of `a` at strictly increasing
    positions `idx`.
  */
  lemma SplitGroupOrder<R>(a: seq<R>, col: R -> int, k: nat) returns (idx: seq<nat>)
    requires k < |Split(a, col)|
    ensures var g := Split(a, col)[k];
            |idx| == |g.1| &&
            (forall p, q :: 0 <= p < q < |idx| ==> idx[p] < idx[q]) &&
            (forall p :: 0 <= p < |idx| ==> idx[p] < |a| && g.1[p] == a[idx[p]]) &&
            (forall i :: 0 <= i < |a| ==> (col(a[i]) == g.0 <==> i in idx))
  {
    idx := RowsWithOrder(a, col, Split(a, col)[k].0);
  }

  /** Group labels after folding: a column value, or the synthetic "Other". */
  datatype Label = Code(code: int) | Other

  /** `len(v) / total >= threshold`. */
  predicate Frequent(size: nat, total: nat, t: real)
    requires total > 0
  {
    (size as real) / (total as real) >= t
  }

  /** The groups at or above the threshold, in their order. */
  function Kept<R>(gs: seq<(int, seq<R>)>, total: nat, t: real): seq<(int, seq<R>)>
    requires total > 0
  {
    if gs == [] then []
    else (if Frequent(|gs[0].1|, total, t) then [gs[0]] else []) + Kept(gs[1..], total, t)
  }

  /** `others`: the groups below the threshold, in their order. */
  function Dropped<R>(gs: seq<(int, seq<R>)>, total: nat, t: real): seq<seq<R>>
    requires total > 0
  {
    if gs == [] then []
    else (if Frequent(|gs[0].1|, total, t) then [] else [gs[0].1]) + Dropped(gs[1..], total, t)
  }

  function Labelled<R>(gs: seq<(int, seq<R>)>): (ls: seq<(Label, seq<R>)>)
    ensures |ls| == |gs| && forall k :: 0 <= k < |gs| ==> ls[k] == (Code(gs[k].0), gs[k].1)
  {
    seq(|gs|, k requires 0 <= k < |gs| => (Code(gs[k].0), gs[k].1))
  }

  /** Python's `if threshold:` — both None and 0 leave the groups unfolded. */
  predicate Folds(threshold: Option<real>)
  {
    threshold.Some? && threshold.value != 0.0
  }

  /**
    `split_by_column(a, col, threshold=...)`. Without a (truthy) threshold,
    the groups as they are. With one, the groups at or above it in value
    order, then "Other" holding the rows of all groups below it if there are
    any; when no group reaches the threshold the tuple unpacking of
    `zip(*[])` raises ValueError.
  */
  function SplitByColumn<R>(a: seq<R>, col: R -> int, threshold: Option<real>): Result<seq<(Label, seq<R>)>>
  {
    var gs := Split(a, col);
    if !Folds(threshold) then Ok(Labelled(gs))
    else if |a| == 0 then Err(ValueError)
    else
      if Kept(gs, |a|, threshold.value) == [] then Err(ValueError)
      else Ok(Folded(gs, |a|, threshold.value))
  }

  /** The kept groups labelled with their values, then "Other" if any group was dropped. */
  function Folded<R>(gs: seq<(int, seq<R>)>, total: nat, t: real): seq<(Label, seq<R>)>
    requires total > 0
  {
    Labelled(Kept(gs, total, t)) + Tail(Dropped(gs, total, t))
  }

  lemma {:induction false} KeptEmptyIff<R>(gs: seq<(int, seq<R>)>, total: nat, t: real)
    requires total > 0
    ensures Kept(gs, total, t) == [] <==> forall k :: 0 <= k < |gs| ==> !Frequent(|gs[k].1|, total, t)
  {
    if gs != [] {
      KeptEmptyIff(gs[1..], total, t);
      assert forall k :: 1 <= k < |gs| ==> gs[k] == gs[1..][k - 1];
    }
  }

  lemma {:induction false} DroppedEmptyIff<R>(gs: seq<(int, seq<R>)>, total: nat, t: real)
    requires total > 0
    ensures Dropped(gs, total, t) == [] <==> forall k :: 0 <= k < |gs| ==> Frequent(|gs[k].1|, total, t)
  {
    if gs != [] {
      DroppedEmptyIff(gs[1..], total, t);
      assert forall k :: 1 <= k < |gs| ==> gs[k] == gs[1..][k - 1];
    }
  }

  /** Every kept group is a frequent group of gs. */
  lemma {:induction false} KeptFrequent<R>(gs: seq<(int, seq<R>)>, total: nat, t: real)
    requires total > 0
    ensures forall k :: 0 <= k < |Kept(gs, total, t)| ==>
              Frequent(|Kept(gs, total, t)[k].1|, total, t) && Kept(gs, total, t)[k] in gs
  {
    if gs != [] {
      var rest := gs[1..];
      KeptFrequent(rest, total, t);
      var kr := Kept(rest, total, t);
      assert forall g :: g in rest ==> g in gs;
    }
  }

  /** Every frequent group of gs is kept. */
  lemma {:induction false} FrequentKept<R>(gs: seq<(int, seq<R>)>, total: nat, t: real)
    requires total > 0
    ensures forall j :: 0 <= j < |gs| && Frequent(|gs[j].1|, total, t) ==> gs[j] in Kept(gs, total, t)
  {
    if gs != [] {
      var rest := gs[1..];
      FrequentKept(rest, total, t);
      assert forall j :: 1 <= j < |gs| ==> gs[j] == rest[j - 1];
    }
  }

  /** Keeping a subsequence of groups keeps their values strictly ascending. */
  lemma {:induction false} KeptAscending<R>(gs: seq<(int, seq<R>)>, total: nat, t: real)
    requires total > 0
    requires forall i, j :: 0 <= i < j < |gs| ==> gs[i].0 < gs[j].0
    ensures forall k, l :: 0 <= k < l < |Kept(gs, total, t)| ==> Kept(gs, total, t)[k].0 < Kept(gs, total, t)[l].0
  {
    if gs != [] {
      var rest := gs[1..];
      KeptAscending(rest, total, t);
      KeptFrequent(rest, total, t);
      var kr := Kept(rest, total, t);
      forall k | 0 <= k < |kr| ensures gs[0].0 < kr[k].0 {
        var j :| 0 <= j < |rest| && rest[j] == kr[k];
        assert rest[j] == gs[j + 1];
      }
    }
  }

  lemma FlattenRowsCons<K, R>(g: (K, seq<R>), gs: seq<(K, seq<R>)>)
    ensures Flatten(RowsOf([g] + gs)) == g.1 + Flatten(RowsOf(gs))
  {
    var rs := RowsOf([g] + gs);
    assert rs[1..] == RowsOf(gs);
  }

  /** The kept and the dropped groups together hold exactly the rows of all groups. */
  lemma {:induction false} KeptDroppedPartition<R>(gs: seq<(int, seq<R>)>, total: nat, t: real)
    requires total > 0
    ensures multiset(Flatten(RowsOf(Kept(gs, total, t)))) + multiset(Flatten(Dropped(gs, total, t)))
            == multiset(Flatten(RowsOf(gs)))
  {
    if gs == [] {
      assert RowsOf(gs) == [];
      assert RowsOf(Kept(gs, total, t)) == [];
    } else {
      var rest := gs[1..];
      KeptDroppedPartition(rest, total, t);
      var kr, dr := Kept(rest, total, t), Dropped(rest, total, t);
      var g := gs[0].1;
      var K, D, A := Flatten(RowsOf(kr)), Flatten(dr), Flatten(RowsOf(rest));
      assert multiset(K) + multiset(D) == multiset(A);
      assert gs == [gs[0]] + rest;
      FlattenRowsCons(gs[0], rest);
      assert Flatten(RowsOf(gs)) == g + A;
      if Frequent(|g|, total, t) {
        assert Kept(gs, total, t) == [gs[0]] + kr;
        assert Dropped(gs, total, t) == dr;
        FlattenRowsCons(gs[0], kr);
        assert Flatten(RowsOf(Kept(gs, total, t))) == g + K;
      } else {
        assert Kept(gs, total, t) == kr;
        assert Dropped(gs, total, t) == [g] + dr;
        assert ([g] + dr)[1..] == dr;
        assert Flatten(Dropped(gs, total, t)) == g + D;
      }
    }
  }

  /**
    Folding with a threshold raises ValueError exactly when no group reaches
    the threshold (an empty input included).
  */
  lemma FoldRaisesIff<R>(a: seq<R>, col: R -> int, threshold: Option<real>)
    requires Folds(threshold)
    ensures var gs := Split(a, col);
            SplitByColumn(a, col, threshold).Err? <==>
              (|a| == 0 || forall k :: 0 <= k < |gs| ==> !Frequent(|gs[k].1|, |a|, threshold.value))
  {
    if |a| > 0 {
      KeptEmptyIff(Split(a, col), |a|, threshold.value);
    }
  }

  /** Every entry of the folded groups labelled with a value is a frequent group of gs. */
  lemma FoldedCodes<R>(gs: seq<(int, seq<R>)>, total: nat, t: real)
    requires total > 0
    ensures var r := Folded(gs, total, t);
            forall k :: 0 <= k < |r| && r[k].0.Code? ==> Frequent(|r[k].1|, total, t) && (r[k].0.code, r[k].1) in gs
  {
    var kept, r := Kept(gs, total, t), Folded(gs, total, t);
    KeptFrequent(gs, total, t);
    forall k | 0 <= k < |r| && r[k].0.Code? ensures Frequent(|r[k].1|, total, t) && (r[k].0.code, r[k].1) in gs {
      assert k < |kept| && r[k] == (Code(kept[k].0), kept[k].1);
    }
  }

  /** Every frequent group of gs appears among the folded groups, labelled with its value. */
  lemma FoldedHasFrequent<R>(gs: seq<(int, seq<R>)>, total: nat, t: real)
    requires total > 0
    ensures var r := Folded(gs, total, t);
            forall j :: 0 <= j < |gs| && Frequent(|gs[j].1|, total, t) ==> (Code(gs[j].0), gs[j].1) in r
  {
    var kept, r := Kept(gs, total, t), Folded(gs, total, t);
    FrequentKept(gs, total, t);
    forall j | 0 <= j < |gs| && Frequent(|gs[j].1|, total, t) ensures (Code(gs[j].0), gs[j].1) in r {
      var m :| 0 <= m < |kept| && kept[m] == gs[j];
      assert r[m] == (Code(gs[j].0), gs[j].1);
    }
  }

  /** Among the folded groups, the labelled ones come first, their values ascending. */
  lemma FoldedAscending<R>(gs: seq<(int, seq<R>)>, total: nat, t: real)
    requires total > 0
    requires forall i, j :: 0 <= i < j < |gs| ==> gs[i].0 < gs[j].0
    ensures var r := Folded(gs, total, t);
            forall k, l :: 0 <= k < l < |r| && r[l].0.Code? ==> r[k].0.Code? && r[k].0.code < r[l].0.code
  {
    var kept, r := Kept(gs, total, t), Folded(gs, total, t);
    KeptAscending(gs, total, t);
    forall k, l | 0 <= k < l < |r| && r[l].0.Code? ensures r[k].0.Code? && r[k].0.code < r[l].0.code {
      assert l < |kept|;
      assert r[k] == (Code(kept[k].0), kept[k].1) && r[l] == (Code(kept[l].0), kept[l].1);
    }
  }

  /** When some group is kept, the last folded entry is "Other" exactly when some group is dropped. */
  lemma FoldedOther<R>(gs: seq<(int, seq<R>)>, total: nat, t: real)
    requires total > 0 && Kept(gs, total, t) != []
    ensures var r := Folded(gs, total, t);
            r != [] && (r[|r| - 1].0 == Other <==> exists j :: 0 <= j < |gs| && !Frequent(|gs[j].1|, total, t))
  {
    var kept, others := Kept(gs, total, t), Dropped(gs, total, t);
    DroppedEmptyIff(gs, total, t);
    var r := Folded(gs, total, t);
    if others == [] {
      assert r == Labelled(kept);
      assert r[|r| - 1] == (Code(kept[|kept| - 1].0), kept[|kept| - 1].1);
    }
  }

  /**
    With a threshold and no error: the leading entries are exactly the groups
    at or above the threshold, with their values ascending; a last entry
    "Other" appears exactly when some group is below the threshold, and no
    entry before the last is "Other".
  */
  lemma FoldKeepsFrequentGroups<R>(a: seq<R>, col: R -> int, threshold: Option<real>)
    requires Folds(threshold) && SplitByColumn(a, col, threshold).Ok?
    ensures var gs := Split(a, col);
            var r := SplitByColumn(a, col, threshold).value;
            var t := threshold.value;
            |a| > 0 &&
            (forall k :: 0 <= k < |r| && r[k].0.Code? ==>
               Frequent(|r[k].1|, |a|, t) && r[k].1 == RowsWith(a, col, r[k].0.code)) &&
            (forall j :: 0 <= j < |gs| && Frequent(|gs[j].1|, |a|, t) ==> (Code(gs[j].0), gs[j].1) in r) &&
            (forall k, l :: 0 <= k < l < |r| && r[l].0.Code? ==> r[k].0.Code? && r[k].0.code < r[l].0.code) &&
            (r[|r| - 1].0 == Other <==> exists j :: 0 <= j < |gs| && !Frequent(|gs[j].1|, |a|, t))
  {
    var gs := Split(a, col);
    var t := threshold.value;
    var r := Folded(gs, |a|, t);
    assert SplitByColumn(a, col, threshold).value == r;
    FoldedCodes(gs, |a|, t);
    FoldedHasFrequent(gs, |a|, t);
    FoldedAscending(gs, |a|, t);
    FoldedOther(gs, |a|, t);
    forall k | 0 <= k < |r| && r[k].0.Code? ensures r[k].1 == RowsWith(a, col, r[k].0.code) {
      var j :| 0 <= j < |gs| && gs[j] == (r[k].0.code, r[k].1);
    }
  }

  /** Labelling the groups leaves their rows as they are. */
  lemma RowsOfLabelled<R>(gs: seq<(int, seq<R>)>)
    ensures RowsOf(Labelled(gs)) == RowsOf(gs)
  {
  }

  /** Folding loses no row: the entries hold every input row exactly once. */
  lemma FoldPreservesRows<R>(a: seq<R>, col: R -> int, threshold: Option<real>)
    requires SplitByColumn(a, col, threshold).Ok?
    ensures var r := SplitByColumn(a, col, threshold).value;
            multiset(Flatten(RowsOf(r))) == multiset(a) && Size(RowsOf(r)) == |a|
  {
    var gs := Split(a, col);
    var r := SplitByColumn(a, col, threshold).value;
    SplitPartition(a, col);
    if Folds(threshold) {
      FoldedRows(gs, |a|, threshold.value);
      assert r == Folded(gs, |a|, threshold.value);
    } else {
      RowsOfLabelled(gs);
    }
    FlattenSize(RowsOf(r));
    assert Size(RowsOf(r)) == |Flatten(RowsOf(r))| == |multiset(Flatten(RowsOf(r)))|;
  }

  /** The entry "Other" holding the rows of the dropped groups, if there are any. */
  function Tail<R>(others: seq<seq<R>>): seq<(Label, seq<R>)>
  {
    if others == [] then [] else [(Other, Flatten(others))]
  }

  /**
    `others` lists the groups below the threshold in the order of gs: they
    are the groups at strictly increasing positions `ds`, and a position is
    among them exactly when its group is below the threshold.
  */
  lemma {:induction false} DroppedInOrder<R>(gs: seq<(int, seq<R>)>, total: nat, t: real) returns (ds: seq<nat>)
    requires total > 0
    ensures |ds| == |Dropped(gs, total, t)|
    ensures forall k, l :: 0 <= k < l < |ds| ==> ds[k] < ds[l]
    ensures forall k :: 0 <= k < |ds| ==> ds[k] < |gs| && Dropped(gs, total, t)[k] == gs[ds[k]].1
    ensures forall j :: 0 <= j < |gs| ==> (!Frequent(|gs[j].1|, total, t) <==> j in ds)
    decreases |gs|
  {
    if gs == [] {
      ds := [];
    } else {
      var first := !Frequent(|gs[0].1|, total, t);
      var rest := DroppedInOrder(gs[1..], total, t);
      ds := Renumber(first, rest);
      var d := Dropped(gs, total, t);
      var dr := Dropped(gs[1..], total, t);
      var off := if first then 1 else 0;
      assert d == (if first then [gs[0].1] else []) + dr;
      forall k | 0 <= k < |ds| ensures ds[k] < |gs| && d[k] == gs[ds[k]].1 {
        if k >= off {
          assert d[k] == dr[k - off];
        }
      }
      forall j | 0 <= j < |gs| ensures !Frequent(|gs[j].1|, total, t) <==> j in ds {
        if j > 0 {
          assert gs[j] == gs[1..][j - 1];
        }
      }
    }
  }

  /**
    Positions xs within a tail, renumbered within the whole sequence (one
    further along), with position 0 in front when `first` holds.
  */
  lemma Renumber(first: bool, xs: seq<nat>) returns (ys: seq<nat>)
    requires forall k, l :: 0 <= k < l < |xs| ==> xs[k] < xs[l]
    ensures var off := if first then 1 else 0;
            |ys| == |xs| + off && (first ==> ys[0] == 0) &&
            forall k :: 0 <= k < |xs| ==> ys[k + off] == xs[k] + 1
    ensures forall k, l :: 0 <= k < l < |ys| ==> ys[k] < ys[l]
    ensures forall j: nat :: j in ys <==> (first && j == 0) || (j > 0 && j - 1 in xs)
  {
    var shifted := ShiftUp(xs);
    if first {
      ys := [0] + shifted;
      forall k, l | 0 <= k < l < |ys| ensures ys[k] < ys[l] {
        assert ys[l] == shifted[l - 1];
        if k > 0 {
          assert ys[k] == shifted[k - 1];
        }
      }
      forall j: nat ensures j in ys <==> j == 0 || (j > 0 && j - 1 in xs) {
        if j > 0 {
          assert j in ys <==> (j - 1) + 1 in shifted;
        }
      }
    } else {
      ys := shifted;
      forall j: nat ensures j in ys <==> j > 0 && j - 1 in xs {
        if j > 0 {
          assert j in ys <==> (j - 1) + 1 in shifted;
        }
      }
    }
  }

  /** Positions one further along: order and membership carry over. */
  lemma ShiftUp(xs: seq<nat>) returns (ys: seq<nat>)
    requires forall k, l :: 0 <= k < l < |xs| ==> xs[k] < xs[l]
    ensures |ys| == |xs| && forall k :: 0 <= k < |xs| ==> ys[k] == xs[k] + 1
    ensures forall k, l :: 0 <= k < l < |ys| ==> ys[k] < ys[l]
    ensures 0 !in ys && forall j: nat :: j + 1 in ys <==> j in xs
  {
    ys := seq(|xs|, k requires 0 <= k < |xs| => xs[k] + 1);
    forall j: nat ensures j + 1 in ys <==> j in xs {
      if j in xs {
        var k :| 0 <= k < |xs| && xs[k] == j;
        assert ys[k] == j + 1;
      }
    }
  }

  /**
    `np.concatenate(others)`: when some group was dropped, the last folded
    entry is "Other" holding the rows of the dropped groups one group after
    another, in the order DroppedInOrder states.
  */
  lemma FoldedOtherRows<R>(gs: seq<(int, seq<R>)>, total: nat, t: real)
    requires total > 0 && Dropped(gs, total, t) != []
    ensures var r := Folded(gs, total, t);
            r != [] && r[|r| - 1] == (Other, Flatten(Dropped(gs, total, t)))
  {
  }

  /** The kept groups, labelled, and the entry "Other" together hold the rows of all groups. */
  lemma FoldedRows<R>(gs: seq<(int, seq<R>)>, total: nat, t: real)
    requires total > 0
    ensures multiset(Flatten(RowsOf(Folded(gs, total, t)))) == multiset(Flatten(RowsOf(gs)))
  {
    var kept, others := Kept(gs, total, t), Dropped(gs, total, t);
    var tail := Tail(others);
    KeptDroppedPartition(gs, total, t);
    RowsOfLabelled(kept);
    assert RowsOf(Labelled(kept) + tail) == RowsOf(kept) + RowsOf(tail);
    FlattenAppend(RowsOf(kept), RowsOf(tail));
    if others != [] {
      assert Flatten(RowsOf(tail)) == Flatten(others) + Flatten([]);
    } else {
      assert RowsOf(tail) == [];
    }
  }

  lemma {:induction false} SizeOfTwo<R>(rs: seq<seq<R>>, i: nat, j: nat)
    requires i < j < |rs|
    ensures |rs[i]| + |rs[j]| <= Size(rs)
  {
    if i > 0 {
      SizeOfTwo(rs[1..], i - 1, j - 1);
    } else {
      SizeOfOne(rs[1..], j - 1);
    }
  }

  lemma {:induction false} SizeOfOne<R>(rs: seq<seq<R>>, j: nat)
    requires j < |rs|
    ensures |rs[j]| <= Size(rs)
  {
    if j > 0 {
      SizeOfOne(rs[1..], j - 1);
    }
  }

  lemma RatioBelowOne(x: nat, y: nat)
    requires x < y
    ensures (x as real) / (y as real) < 1.0
  {
    var q := (x as real) / (y as real);
    assert q * (y as real) == x as real;
  }

  /**
    When two different groups are non-empty, every group holds fewer rows
    than all groups together, so none reaches a threshold of 1 or more.
  */
  lemma SmallGroups<R>(gs: seq<(int, seq<R>)>, t: real, ki: nat, kj: nat)
    requires t >= 1.0 && ki < |gs| && kj < |gs| && ki != kj
    requires |gs[ki].1| > 0 && |gs[kj].1| > 0
    ensures Size(RowsOf(gs)) > 0
    ensures forall k :: 0 <= k < |gs| ==> !Frequent(|gs[k].1|, Size(RowsOf(gs)), t)
  {
    var rs := RowsOf(gs);
    SizeOfOne(rs, ki);
    forall k | 0 <= k < |gs| ensures !Frequent(|gs[k].1|, Size(rs), t) {
      var other := if k == ki then kj else ki;
      if k < other { SizeOfTwo(rs, k, other); } else { SizeOfTwo(rs, other, k); }
      RatioBelowOne(|rs[k]|, Size(rs));
    }
  }

  /**
    With a threshold of 1 or more and at least two distinct values, no group
    can reach the threshold, so the call raises instead of folding everything
    into "Other".
  */
  lemma FoldAtOneRaises<R>(a: seq<R>, col: R -> int, t: real, i: nat, j: nat)
    requires t >= 1.0
    requires i < |a| && j < |a| && col(a[i]) != col(a[j])
    ensures SplitByColumn(a, col, Some(t)).Err?
  {
    var gs := Split(a, col);
    SplitPartition(a, col);
    var vi, vj := col(a[i]), col(a[j]);
    assert Values(a, col)[i] == vi && Values(a, col)[j] == vj;
    assert vi in Values(a, col) && vj in Values(a, col);
    var ki :| 0 <= ki < |gs| && gs[ki].0 == vi;
    var kj :| 0 <= kj < |gs| && gs[kj].0 == vj;
    SmallGroups(gs, t, ki, kj);
    FoldRaisesIff(a, col, Some(t));
  }
}
