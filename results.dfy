/**
 * Failure-carrying values used in place of Python's exceptions, and the
 * loop shapes the solvers share: parsing that stops at the first failure,
 * counting and summing.
 */
module Results {

  /** A value that may be absent: `None` stands for a raised `ValueError`. */
  datatype Option<T> = None | Some(value: T)

  /** A value or the error that stopped the computation. */
  datatype Result<T, E> = Ok(value: T) | Err(error: E)

  // ---------------------------------------------------------------------
  // Parsing loops that skip blank items and stop at the first failure

  /** What a parsing loop does with one item: skip it, keep a value, or raise. */
  datatype Step<T> = Skip | Keep(value: T) | Fail

  /** The values kept over the first `n` steps, or `None` once a step fails. */
  function Gather<T>(steps: seq<Step<T>>, n: nat): Option<seq<T>>
    requires n <= |steps|
  {
    if n == 0 then Some([])
    else
      match Gather(steps, n - 1)
      case None => None
      case Some(xs) =>
        match steps[n - 1]
        case Skip => Some(xs)
        case Keep(x) => Some(xs + [x])
        case Fail => None
  }

  /** Once a step fails, every longer prefix fails. */
  lemma {:induction false} GatherStaysNone<T>(steps: seq<Step<T>>, i: nat, n: nat)
    requires i <= n <= |steps| && Gather(steps, i) == None
    ensures Gather(steps, n) == None
    decreases n - i
  {
    if i < n {
      GatherStaysNone(steps, i + 1, n);
    }
  }

  /** One more step, as the loop takes it; a failing step fails the whole loop. */
  lemma GatherStep<T>(steps: seq<Step<T>>, i: nat, xs: seq<T>)
    requires i < |steps| && Gather(steps, i) == Some(xs)
    ensures steps[i].Skip? ==> Gather(steps, i + 1) == Some(xs)
    ensures steps[i].Keep? ==> Gather(steps, i + 1) == Some(xs + [steps[i].value])
    ensures steps[i].Fail? ==> Gather(steps, |steps|) == None
  {
    if steps[i].Fail? {
      GatherStaysNone(steps, i + 1, |steps|);
    }
  }

  /** The loop keeps at most one value per step, and nothing when every step skips. */
  lemma {:induction false} GatherLength<T>(steps: seq<Step<T>>, n: nat)
    requires n <= |steps| && Gather(steps, n).Some?
    ensures |Gather(steps, n).value| <= n
    ensures (forall i :: 0 <= i < n ==> steps[i].Skip?) ==> Gather(steps, n) == Some([])
  {
    if n > 0 {
      GatherLength(steps, n - 1);
    }
  }

  /** When every step keeps a value, the loop returns all of them in order. */
  lemma {:induction false} GatherAllKeep<T>(steps: seq<Step<T>>, n: nat)
    requires n <= |steps| && forall i :: 0 <= i < n ==> steps[i].Keep?
    ensures Gather(steps, n).Some? && |Gather(steps, n).value| == n
    ensures forall i :: 0 <= i < n ==> Gather(steps, n).value[i] == steps[i].value
  {
    if n > 0 {
      GatherAllKeep(steps, n - 1);
      assert steps[n - 1] == Keep(steps[n - 1].value);
    }
  }

  // ---------------------------------------------------------------------
  // Counting loops

  /** How many of the first `n` flags are set. */
  function CountTrue(flags: seq<bool>, n: nat): nat
    requires n <= |flags|
  {
    if n == 0 then 0 else CountTrue(flags, n - 1) + (if flags[n - 1] then 1 else 0)
  }

  /** The running count of set flags is the number of set positions. */
  lemma {:induction false} CountTrueIndices(flags: seq<bool>, n: nat)
    requires n <= |flags|
    ensures CountTrue(flags, n) == |set i | 0 <= i < n && flags[i]|
  {
    if n > 0 {
      CountTrueIndices(flags, n - 1);
      var before := set i | 0 <= i < n - 1 && flags[i];
      var after := set i | 0 <= i < n && flags[i];
      var last := if flags[n - 1] then {n - 1} else {};
      assert after == before + last;
      assert n - 1 !in before;
    }
  }

  // ---------------------------------------------------------------------
  // Sums

  /** `sum(xs)`. */
  function Sum(xs: seq<int>): int {
    if |xs| == 0 then 0 else xs[0] + Sum(xs[1..])
  }

  /** The sum of two lists one after the other is the sum of their sums. */
  lemma {:induction false} SumAppend(a: seq<int>, b: seq<int>)
    ensures Sum(a + b) == Sum(a) + Sum(b)
  {
    if |a| > 0 {
      assert (a + b)[1..] == a[1..] + b;
      SumAppend(a[1..], b);
    } else {
      assert a + b == b;
    }
  }
}
