/** The time grid `arrange(start, stop, step)` of algebra.py, shared by
    every fixed-step integrator. Python accumulates `current += step` in
    floats; over reals the k-th point is exactly `start + (k + 1) * step`. */
module TimeGrid {

  /** The loop ends: either the step moves forward, or not even the first
      point `current` is admitted (with `step <= 0` and `current <= stop`
      the Python loop never ends). */
  predicate Finite(current: real, stop: real, step: real) {
    step > 0.0 || current > stop
  }

  /** How many more loop iterations remain from `current`. */
  function Remaining(current: real, stop: real, step: real): nat
    requires Finite(current, stop, step)
  {
    if current <= stop then ((stop - current) / step).Floor + 1 else 0
  }

  /** The `while current <= stop` loop, started at `current`. */
  function ArrangeFrom(current: real, stop: real, step: real): (r: seq<real>)
    requires Finite(current, stop, step)
    ensures forall k :: 0 <= k < |r| ==> r[k] == current + (k as real) * step && r[k] <= stop
    ensures current + (|r| as real) * step > stop
    decreases Remaining(current, stop, step)
  {
    if current <= stop then
      StepDown(stop - current, step);
      assert stop - (current + step) == (stop - current) - step;
      [current] + ArrangeFrom(current + step, stop, step)
    else
      []
  }

  /** One step less to go is one fewer remaining iteration. */
  lemma StepDown(a: real, step: real)
    requires step > 0.0
    ensures (a - step) / step == a / step - 1.0
  {
    assert (a - step) / step == a / step - step / step;
  }

  /** The k-th point (from 0) of the grid after `start`. */
  function GridPoint(start: real, step: real, k: int): real {
    start + (k as real + 1.0) * step
  }

  /** `arrange(start, stop, step)`. The grid points are `start + (k + 1) * step`,
      never `start` itself; all are at most `stop`, and the next point would
      not be. */
  function Arrange(start: real, stop: real, step: real): (r: seq<real>)
    requires Finite(start + step, stop, step)
    ensures forall k :: 0 <= k < |r| ==> r[k] == GridPoint(start, step, k)
    ensures forall k :: 0 <= k < |r| ==> r[k] <= stop
    ensures GridPoint(start, step, |r|) > stop
    ensures |r| == 0 <==> start + step > stop
  {
    var r := ArrangeFrom(start + step, stop, step);
    ShiftedGrid(start, step, |r|);
    r
  }

  /** Consecutive grid points differ by `step`, and for `step > 0` no point
      is `start` or below it. */
  lemma ArrangeSpacing(start: real, stop: real, step: real)
    requires Finite(start + step, stop, step)
    ensures var r := Arrange(start, stop, step);
      forall k :: 0 < k < |r| ==> r[k] - r[k - 1] == step
    ensures step > 0.0 ==> forall x :: x in Arrange(start, stop, step) ==> x > start
  {
  }

  /** The grid started at `start + step` is the grid after `start`, whose
      points lie above `start` when the step is positive. */
  lemma ShiftedGrid(start: real, step: real, n: nat)
    ensures forall k :: 0 <= k <= n ==> (start + step) + (k as real) * step == GridPoint(start, step, k)
    ensures step > 0.0 ==> forall k :: 0 <= k <= n ==> GridPoint(start, step, k) > start
  {
  }

  /** The grid properties determine `arrange` completely: any sequence of
      evenly spaced points after `start`, all at most `stop` and stopping
      only when the next point would pass `stop`, is the grid. */
  lemma ArrangeUnique(start: real, stop: real, step: real, s: seq<real>)
    requires Finite(start + step, stop, step)
    requires forall k :: 0 <= k < |s| ==> s[k] == GridPoint(start, step, k)
    requires forall k :: 0 <= k < |s| ==> s[k] <= stop
    requires GridPoint(start, step, |s|) > stop
    ensures s == Arrange(start, stop, step)
  {
  }

  /** For `stop >= start` the grid has `floor((stop - start) / step)` points. */
  lemma ArrangeLength(start: real, stop: real, step: real)
    requires step > 0.0 && start <= stop
    ensures |Arrange(start, stop, step)| == ((stop - start) / step).Floor
  {
    var n := |Arrange(start, stop, step)|;
    var x := (stop - start) / step;
    assert x * step == stop - start;
    if n == 0 {
      assert (n as real) * step == 0.0 * step;
    } else {
      assert Arrange(start, stop, step)[n - 1] <= stop;
      assert ((n - 1) as real + 1.0) == n as real;
    }
    assert (n as real) * step <= stop - start;
    assert (n as real + 1.0) * step > stop - start;
    MultiplyBounds(n as real, x, step, stop - start);
  }

  /** Dividing the grid bounds by a positive step. */
  lemma MultiplyBounds(n: real, x: real, step: real, d: real)
    requires step > 0.0 && d == x * step
    requires n * step <= d < (n + 1.0) * step
    ensures n <= x < n + 1.0
  {
    CancelPositive(n, x, step);
    CancelPositive(x, n + 1.0, step);
  }

  /** Comparing multiples of a positive step compares the multipliers. */
  lemma CancelPositive(a: real, b: real, step: real)
    requires step > 0.0
    ensures a * step <= b * step ==> a <= b
    ensures a * step < b * step ==> a < b
  {
  }

  /** The Adams-Bashforth bootstrap grid `arrange(t, t + 3h, h)` has exactly
      the three points `t + h`, `t + 2h`, `t + 3h`. */
  lemma ArrangeThreeSteps(start: real, step: real)
    requires step > 0.0
    ensures Arrange(start, start + step * 3.0, step) == [start + step, start + 2.0 * step, start + 3.0 * step]
  {
    var s := [start + step, start + 2.0 * step, start + 3.0 * step];
    assert GridPoint(start, step, 3) > start + step * 3.0;
    ArrangeUnique(start, start + step * 3.0, step, s);
  }
}
