/**
  Definitions shared by the whole model: the Python exceptions the modelled
  code can raise, sums of reals, and numpy's boolean-mask selection.
*/
module Common {

  /** Python's `None` or a value. */
  datatype Option<+T> = None | Some(value: T)

  /** The Python exceptions the modelled code raises. */
  datatype PyError = IndexError | KeyError | ValueError | ZeroDivisionError | AttributeError

  /** What a Python call produces: the value it returns or the exception it raises. */
  datatype Result<+T> = Ok(value: T) | Err(error: PyError) {
    predicate IsFailure() { Err? }
    function PropagateFailure<U>(): Result<U> requires Err? { Err(error) }
    function Extract(): T requires Ok? { value }
  }

  function Max(a: real, b: real): real { if a >= b then a else b }

  function Min(a: real, b: real): real { if a <= b then a else b }

  function Abs(a: real): real { if a >= 0.0 then a else -a }

  /** Sum of a sequence, accumulated from the front as `np.sum` does. */
  function Sum(xs: seq<real>): real
  {
    if xs == [] then 0.0 else Sum(xs[..|xs| - 1]) + xs[|xs| - 1]
  }

  /** The sum of the first n entries, in the order a loop over the indices accumulates them. */
  function PartialSum(xs: seq<real>, n: nat): real
    requires n <= |xs|
  {
    if n == 0 then 0.0 else PartialSum(xs, n - 1) + xs[n - 1]
  }

  /** Accumulating all entries by index gives the sum. */
  lemma {:induction false} PartialSumIsSum(xs: seq<real>)
    ensures PartialSum(xs, |xs|) == Sum(xs)
    decreases |xs|
  {
    if xs != [] {
      var p := xs[..|xs| - 1];
      PartialSumIsSum(p);
      PartialSumPrefix(xs, |p|);
    }
  }

  /** The partial sums of a sequence and of a longer one agree on the common prefix. */
  lemma {:induction false} PartialSumPrefix(xs: seq<real>, n: nat)
    requires n <= |xs|
    ensures PartialSum(xs[..n], n) == PartialSum(xs, n)
    decreases n
  {
    if n > 0 {
      PartialSumPrefix(xs, n - 1);
      PartialSumPrefix(xs[..n], n - 1);
      assert xs[..n][..n - 1] == xs[..n - 1];
    }
  }

  lemma {:induction false} SumAppend(a: seq<real>, b: seq<real>)
    ensures Sum(a + b) == Sum(a) + Sum(b)
    decreases |b|
  {
    if b == [] {
      assert a + b == a;
    } else {
      var b' := b[..|b| - 1];
      assert (a + b)[..|a + b| - 1] == a + b';
      SumAppend(a, b');
    }
  }

  /** A sum of terms each at least `lo` and at most `hi` lies between |xs| * lo and |xs| * hi. */
  lemma {:induction false} SumBounds(xs: seq<real>, lo: real, hi: real)
    requires forall i :: 0 <= i < |xs| ==> lo <= xs[i] <= hi
    ensures (|xs| as real) * lo <= Sum(xs) <= (|xs| as real) * hi
    decreases |xs|
  {
    if xs != [] {
      var p := xs[..|xs| - 1];
      assert forall i :: 0 <= i < |p| ==> p[i] == xs[i];
      SumBounds(p, lo, hi);
      assert (|xs| as real) * lo == (|p| as real) * lo + lo;
      assert (|xs| as real) * hi == (|p| as real) * hi + hi;
    }
  }

  /** `a[mask]` for a boolean numpy mask: the elements whose entry is true, in their order. */
  function Select<T>(a: seq<T>, mask: seq<bool>): seq<T>
    requires |mask| == |a|
  {
    if a == [] then []
    else Select(a[..|a| - 1], mask[..|a| - 1]) + (if mask[|a| - 1] then [a[|a| - 1]] else [])
  }

  /** The positions of the true entries of a mask, strictly ascending. */
  function TrueIndices(mask: seq<bool>): (ix: seq<nat>)
    ensures forall k :: 0 <= k < |ix| ==> ix[k] < |mask| && mask[ix[k]]
    ensures forall k, l :: 0 <= k < l < |ix| ==> ix[k] < ix[l]
    ensures forall i :: 0 <= i < |mask| && mask[i] ==> i in ix
  {
    if mask == [] then []
    else
      var p := mask[..|mask| - 1];
      assert forall i :: 0 <= i < |p| ==> p[i] == mask[i];
      TrueIndices(p) + (if mask[|mask| - 1] then [|mask| - 1] else [])
  }

  /**
    Selecting with a mask keeps exactly the elements at the mask's true
    positions, in ascending order of position: an order-preserving subsequence.
  */
  lemma {:induction false} SelectAt<T>(a: seq<T>, mask: seq<bool>)
    requires |mask| == |a|
    ensures |Select(a, mask)| == |TrueIndices(mask)|
    ensures forall k :: 0 <= k < |Select(a, mask)| ==> Select(a, mask)[k] == a[TrueIndices(mask)[k]]
    decreases |a|
  {
    if a != [] {
      var n := |a| - 1;
      var p, pm := a[..n], mask[..n];
      SelectAt(p, pm);
      var sp, ip := Select(p, pm), TrueIndices(pm);
      assert Select(a, mask) == sp + (if mask[n] then [a[n]] else []);
      assert TrueIndices(mask) == ip + (if mask[n] then [n] else []);
      forall k | 0 <= k < |sp|
        ensures Select(a, mask)[k] == a[TrueIndices(mask)[k]]
      {
        assert Select(a, mask)[k] == sp[k];
        assert TrueIndices(mask)[k] == ip[k];
      }
    }
  }
}
