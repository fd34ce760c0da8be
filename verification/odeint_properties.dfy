/** What the fixed-step integrators of odeint.py compute, stated against
    textbook definitions: the component-wise update formulas, exactness for a
    constant derivative, preserved state length, and where a derivative of
    the wrong length makes a run raise. */
module FixedStepProperties {
  import opened Outcomes
  import opened Vectors
  import opened TimeGrid
  import opened FixedStep

  /** The derivative maps every state of length `n` to a vector of length `n`. */
  ghost predicate PreservesLength(f: Derivative, n: nat) {
    forall t: real, y: Vector :: |y| == n ==> |f(t, y)| == n
  }

  /** The derivative is the constant `k` on states of length `n`. */
  ghost predicate ConstantOn(f: Derivative, n: nat, k: Vector) {
    forall t: real, y: Vector :: |y| == n ==> f(t, y) == k
  }

  /** The point `y + c·k`. */
  function Translate(y: Vector, c: real, k: Vector): Vector
    requires |k| == |y|
  {
    seq(|y|, j requires 0 <= j < |y| => y[j] + c * k[j])
  }

  /** The explicit Euler update `y + h·f(t, y)`, component by component. */
  function EulerReference(f: Derivative, h: real, t: real, y: Vector): Vector
    requires PreservesLength(f, |y|)
  {
    Translate(y, h, f(t, y))
  }

  /** The classical fourth-order Runge-Kutta update, component by component. */
  function RK4Reference(f: Derivative, h: real, t: real, y: Vector): Vector
    requires PreservesLength(f, |y|)
  {
    var k1 := f(t, y);
    var k2 := f(t + h / 2.0, Translate(y, h / 2.0, k1));
    var k3 := f(t + h / 2.0, Translate(y, h / 2.0, k2));
    var k4 := f(t + h, Translate(y, h, k3));
    seq(|y|, j requires 0 <= j < |y| => y[j] + h / 6.0 * (k1[j] + 2.0 * k2[j] + 2.0 * k3[j] + k4[j]))
  }

  /** The three-step Adams-Bashforth update, component by component. */
  function AB3Reference(f: Derivative, h: real, t1: real, y1: Vector, t2: real, y2: Vector, t3: real, y3: Vector): Vector
    requires |y2| == |y1| && |y3| == |y1| && PreservesLength(f, |y1|)
  {
    var k1 := f(t1, y1);
    var k2 := f(t2, y2);
    var k3 := f(t3, y3);
    seq(|y1|, j requires 0 <= j < |y1| => y1[j] + h * (23.0 * k1[j] - 16.0 * k2[j] + 5.0 * k3[j]) / 12.0)
  }

  // ---------------------------------------------------------------------
  // One step

  /** An Euler step succeeds exactly when `f` returns a vector of the state's
      length, and then it is the Euler update; otherwise it raises. */
  lemma EulerStepMatchesReference(f: Derivative, h: real, t: real, y: Vector)
    ensures EulerStep(f, h, t, y).Ok? <==> |f(t, y)| == |y|
    ensures PreservesLength(f, |y|) ==> EulerStep(f, h, t, y) == Ok(EulerReference(f, h, t, y))
    ensures |f(t, y)| != |y| ==> EulerStep(f, h, t, y) == Err(DimensionMismatch)
  {
    if PreservesLength(f, |y|) {
      assert EulerStep(f, h, t, y).value == EulerReference(f, h, t, y);
    }
  }

  /** For a length-preserving derivative the `rk4` loop body is the classical RK4 update. */
  lemma RK4StepMatchesReference(f: Derivative, h: real, t: real, y: Vector)
    requires PreservesLength(f, |y|)
    ensures RK4Step(f, h, t, y) == Ok(RK4Reference(f, h, t, y))
  {
    var k1 := f(t, y);
    var y2 := Translate(y, h / 2.0, k1);
    AddScaledIsTranslate(y, h / 2.0, k1);
    var k2 := f(t + h / 2.0, y2);
    var y3 := Translate(y, h / 2.0, k2);
    AddScaledIsTranslate(y, h / 2.0, k2);
    var k3 := f(t + h / 2.0, y3);
    var y4 := Translate(y, h, k3);
    AddScaledIsTranslate(y, h, k3);
    var k4 := f(t + h, y4);
    var s1 := Add(k1, ScaleLeft(2.0, k2)).value;
    var s2 := Add(s1, ScaleLeft(2.0, k3)).value;
    var s := Add(s2, k4).value;
    var r := Add(y, ScaleLeft(h / 6.0, s)).value;
    var e := RK4Reference(f, h, t, y);
    forall j | 0 <= j < |y|
      ensures r[j] == e[j]
    {
      assert s[j] == k1[j] + 2.0 * k2[j] + 2.0 * k3[j] + k4[j];
      assert h / 6.0 * s[j] == h / 6.0 * (k1[j] + 2.0 * k2[j] + 2.0 * k3[j] + k4[j]);
    }
    assert r == e;
  }

  /** Adding `c * k` with the Vector operators is moving the point by `c·k`. */
  lemma AddScaledIsTranslate(y: Vector, c: real, k: Vector)
    requires |k| == |y|
    ensures Add(y, ScaleLeft(c, k)) == Ok(Translate(y, c, k))
  {
    assert Add(y, ScaleLeft(c, k)).value == Translate(y, c, k);
  }

  /** An RK4 step raises when `f` changes the length of the state it starts from. */
  lemma RK4StepRaises(f: Derivative, h: real, t: real, y: Vector)
    requires |f(t, y)| != |y|
    ensures RK4Step(f, h, t, y) == Err(DimensionMismatch)
  {
  }

  /** Every stage derivative of an RK4 step from `y` has the length of `y`:
      `k1` at `t`, then `k2` and `k3` at `t + h/2` and `k4` at `t + h`, each
      taken at the stage state the derivative before it gives. */
  predicate RK4StagesKeepLength(f: Derivative, h: real, t: real, y: Vector) {
    var k1 := f(t, y);
    |k1| == |y| &&
    var k2 := f(t + h / 2.0, Translate(y, h / 2.0, k1));
    |k2| == |y| &&
    var k3 := f(t + h / 2.0, Translate(y, h / 2.0, k2));
    |k3| == |y| &&
    |f(t + h, Translate(y, h, k3))| == |y|
  }

  /** An RK4 step succeeds exactly when all four stage derivatives have the
      length of the state; otherwise it raises the dimension error. */
  lemma RK4StepOkIff(f: Derivative, h: real, t: real, y: Vector)
    ensures RK4Step(f, h, t, y).Ok? <==> RK4StagesKeepLength(f, h, t, y)
    ensures RK4Step(f, h, t, y).Err? ==> RK4Step(f, h, t, y) == Err(DimensionMismatch)
  {
    var k1 := f(t, y);
    if |k1| == |y| {
      AddScaledIsTranslate(y, h / 2.0, k1);
      var k2 := f(t + h / 2.0, Translate(y, h / 2.0, k1));
      if |k2| == |y| {
        AddScaledIsTranslate(y, h / 2.0, k2);
        var k3 := f(t + h / 2.0, Translate(y, h / 2.0, k2));
        if |k3| == |y| {
          AddScaledIsTranslate(y, h, k3);
        }
      }
    }
  }

  /** The three derivatives an AB3 step evaluates all have the length of `y1`. */
  predicate AB3DerivativesKeepLength(f: Derivative, t1: real, y1: Vector, t2: real, y2: Vector, t3: real, y3: Vector) {
    |f(t1, y1)| == |y1| && |f(t2, y2)| == |y1| && |f(t3, y3)| == |y1|
  }

  /** An AB3 step succeeds exactly when `k1`, `k2` and `k3` all have the length
      of `y[-1]`; otherwise it raises the dimension error. */
  lemma AB3StepOkIff(f: Derivative, h: real, t1: real, y1: Vector, t2: real, y2: Vector, t3: real, y3: Vector)
    ensures AB3Step(f, h, t1, y1, t2, y2, t3, y3).Ok? <==> AB3DerivativesKeepLength(f, t1, y1, t2, y2, t3, y3)
    ensures AB3Step(f, h, t1, y1, t2, y2, t3, y3).Err? ==> AB3Step(f, h, t1, y1, t2, y2, t3, y3) == Err(DimensionMismatch)
  {
  }

  /** For a length-preserving derivative the `adams_bashforth3` loop body is the AB3 update. */
  lemma AB3StepMatchesReference(f: Derivative, h: real, t1: real, y1: Vector, t2: real, y2: Vector, t3: real, y3: Vector)
    requires |y2| == |y1| && |y3| == |y1| && PreservesLength(f, |y1|)
    ensures AB3Step(f, h, t1, y1, t2, y2, t3, y3) == Ok(AB3Reference(f, h, t1, y1, t2, y2, t3, y3))
  {
    var k1 := f(t1, y1);
    var k2 := f(t2, y2);
    var k3 := f(t3, y3);
    var d := Sub(ScaleLeft(23.0, k1), ScaleLeft(16.0, k2)).value;
    var s := Add(d, ScaleLeft(5.0, k3)).value;
    var inc := DivScalar(ScaleLeft(h, s), 12.0).value;
    forall j | 0 <= j < |y1|
      ensures inc[j] == h * (23.0 * k1[j] - 16.0 * k2[j] + 5.0 * k3[j]) / 12.0
    {
      assert s[j] == 23.0 * k1[j] - 16.0 * k2[j] + 5.0 * k3[j];
      assert inc[j] * 12.0 == h * s[j];
    }
    var r := Add(y1, inc).value;
    var e := AB3Reference(f, h, t1, y1, t2, y2, t3, y3);
    assert forall j :: 0 <= j < |y1| ==> r[j] == e[j];
    assert r == e;
  }

  // ---------------------------------------------------------------------
  // Whole runs: a generic single-history loop

  /** A step that maps states of length `n` to states of length `n` without raising. */
  ghost predicate StepPreserves(step: Step, n: nat) {
    forall s: real, y: Vector :: |y| == n ==> step(s, y).Ok? && |step(s, y).value| == n
  }

  lemma StepPreservesAt(step: Step, n: nat, s: real, y: Vector)
    requires StepPreserves(step, n) && |y| == n
    ensures step(s, y).Ok? && |step(s, y).value| == n
  {
  }

  /** A loop whose step keeps the length never raises, and keeps every state at `|y0|`. */
  lemma {:induction false} StatesKeepLength(step: Step, t: seq<real>, y0: Vector, n: nat)
    requires 1 <= n <= StateCount(t) && StepPreserves(step, |y0|)
    ensures States(step, t, y0, n).Ok?
    ensures forall i :: 0 <= i < n ==> |States(step, t, y0, n).value[i]| == |y0|
  {
    if n > 1 {
      StatesKeepLength(step, t, y0, n - 1);
      var ys := States(step, t, y0, n - 1).value;
      var y := ys[n - 2];
      assert |y| == |y0|;
      StepPreservesAt(step, |y0|, t[n - 1], y);
    }
  }

  /** A step that moves every state of length `n` by `h·k`. */
  ghost predicate StepTranslates(step: Step, n: nat, h: real, k: Vector)
    requires |k| == n
  {
    forall s: real, y: Vector :: |y| == n ==> step(s, y) == Ok(Translate(y, h, k))
  }

  lemma StepTranslatesAt(step: Step, n: nat, h: real, k: Vector, s: real, y: Vector)
    requires |k| == n && StepTranslates(step, n, h, k) && |y| == n
    ensures step(s, y) == Ok(Translate(y, h, k))
  {
  }

  /** The state after `i` moves of `h·k` from `y0`. */
  function Drift(y0: Vector, h: real, k: Vector, i: nat): (r: Vector)
    requires |k| == |y0|
    ensures |r| == |y0|
  {
    if i == 0 then y0 else Translate(Drift(y0, h, k, i - 1), h, k)
  }

  /** `i` moves of `h·k` are one move of `(i·h)·k`. */
  lemma {:induction false} DriftClosedForm(y0: Vector, h: real, k: Vector, i: nat)
    requires |k| == |y0|
    ensures Drift(y0, h, k, i) == Translate(y0, (i as real) * h, k)
  {
    if i == 0 {
      assert Translate(y0, (0 as real) * h, k) == y0;
    } else {
      var m: nat := i - 1;
      DriftClosedForm(y0, h, k, m);
      TranslateOneMore(y0, h, k, m, i);
    }
  }

  /** A loop whose step adds `h·k` to the state has drifted `i` times after `i` steps. */
  lemma {:induction false} StatesTranslate(step: Step, t: seq<real>, y0: Vector, n: nat, h: real, k: Vector)
    requires 1 <= n <= StateCount(t) && |k| == |y0|
    requires StepTranslates(step, |y0|, h, k)
    ensures States(step, t, y0, n).Ok?
    ensures forall i :: 0 <= i < n ==> States(step, t, y0, n).value[i] == Drift(y0, h, k, i)
  {
    if n > 1 {
      StatesTranslate(step, t, y0, n - 1, h, k);
      var ys := States(step, t, y0, n - 1).value;
      StepTranslatesAt(step, |y0|, h, k, t[n - 1], ys[n - 2]);
    }
  }

  /** The `i`-th move of `h·k` after `m = i - 1` of them. */
  lemma TranslateOneMore(y: Vector, h: real, k: Vector, m: nat, i: nat)
    requires |k| == |y| && i == m + 1
    ensures Translate(Translate(y, (m as real) * h, k), h, k) == Translate(y, (i as real) * h, k)
  {
    var a := (m as real) * h + h;
    var b := (i as real) * h;
    TranslateTwice(y, (m as real) * h, h, k);
    assert a == b by {
      assert (i as real) == (m as real) + 1.0;
    }
    assert Translate(y, a, k) == Translate(y, b, k);
  }

  /** Moving by `c·k` and then by `d·k` is moving by `(c + d)·k`. */
  lemma TranslateTwice(y: Vector, c: real, d: real, k: Vector)
    requires |k| == |y|
    ensures Translate(Translate(y, c, k), d, k) == Translate(y, c + d, k)
  {
  }

  /** Once the loop raises, every longer run raises the same exception. */
  lemma {:induction false} StatesStayFailed(step: Step, t: seq<real>, y0: Vector, m: nat, n: nat)
    requires 1 <= m <= n <= StateCount(t) && States(step, t, y0, m).Err?
    ensures States(step, t, y0, n) == Err(States(step, t, y0, m).error)
    decreases n - m
  {
    if m < n {
      StatesStayFailed(step, t, y0, m, n - 1);
    }
  }

  /** Step `m` of the loop raises: the first `m` states were computed and
      the step from state `m - 1` at grid time `t[m]` raises. */
  predicate FailsAt(step: Step, t: seq<real>, y0: Vector, m: nat) {
    1 <= m < StateCount(t) && States(step, t, y0, m).Ok? &&
    step(t[m], States(step, t, y0, m).value[m - 1]).Err?
  }

  /** Once step `m` raises, every run past it raises that step's exception. */
  lemma RaisesFailingStepError(step: Step, t: seq<real>, y0: Vector, m: nat, n: nat)
    requires m < n <= StateCount(t) && FailsAt(step, t, y0, m)
    ensures States(step, t, y0, n) == Err(step(t[m], States(step, t, y0, m).value[m - 1]).error)
  {
    StatesStayFailed(step, t, y0, m + 1, n);
  }

  /** The first `n` states raise exactly when some step `m < n` raises. */
  lemma {:induction false} StatesRaiseIff(step: Step, t: seq<real>, y0: Vector, n: nat)
    requires 1 <= n <= StateCount(t)
    ensures States(step, t, y0, n).Err? <==> exists m: nat :: m < n && FailsAt(step, t, y0, m)
  {
    forall m: nat | m < n && FailsAt(step, t, y0, m)
      ensures States(step, t, y0, n).Err?
    {
      RaisesFailingStepError(step, t, y0, m, n);
    }
    if n > 1 {
      StatesRaiseIff(step, t, y0, n - 1);
      if States(step, t, y0, n).Err? && States(step, t, y0, n - 1).Ok? {
        assert FailsAt(step, t, y0, n - 1);
      }
    }
  }

  /** A step that can raise only `e`. */
  ghost predicate RaisesOnly(step: Step, e: Error) {
    forall s: real, y: Vector :: step(s, y).Err? ==> step(s, y).error == e
  }

  lemma RaisesOnlyAt(step: Step, e: Error, s: real, y: Vector)
    requires RaisesOnly(step, e)
    ensures step(s, y).Err? ==> step(s, y).error == e
  {
  }

  /** A loop whose step can raise only `e` can itself raise only `e`. */
  lemma {:induction false} StatesRaiseOnly(step: Step, t: seq<real>, y0: Vector, n: nat, e: Error)
    requires 1 <= n <= StateCount(t) && RaisesOnly(step, e)
    ensures States(step, t, y0, n).Err? ==> States(step, t, y0, n) == Err(e)
  {
    if n > 1 {
      StatesRaiseOnly(step, t, y0, n - 1, e);
      if States(step, t, y0, n - 1).Ok? {
        var ys := States(step, t, y0, n - 1).value;
        RaisesOnlyAt(step, e, t[n - 1], ys[n - 2]);
      }
    }
  }

  // ---------------------------------------------------------------------
  // Euler and RK4 runs

  /** With a length-preserving derivative `euler` never raises, its states
      keep the length of `y0`, and each one is the Euler update of the one before. */
  lemma EulerKeepsLength(f: Derivative, y0: Vector, tStart: real, tMax: real, h: real)
    requires GridFinite(tStart, tMax, h) && PreservesLength(f, |y0|)
    ensures Euler(f, y0, tStart, tMax, h).Ok?
    ensures var r := Euler(f, y0, tStart, tMax, h).value;
      forall i :: 0 <= i < |r.states| ==> |r.states[i]| == |y0|
    ensures var r := Euler(f, y0, tStart, tMax, h).value;
      forall i :: 1 <= i < |r.states| ==> r.states[i] == EulerReference(f, h, r.times[i], r.states[i - 1])
  {
    var t := Arrange(tStart, tMax, h);
    var step := EulerLoopStep(f, h);
    forall s: real, y: Vector | |y| == |y0|
      ensures step(s, y).Ok? && |step(s, y).value| == |y0|
    {
      EulerStepMatchesReference(f, h, s, y);
    }
    StatesKeepLength(step, t, y0, StateCount(t));
    var r := Euler(f, y0, tStart, tMax, h).value;
    forall i | 1 <= i < |r.states|
      ensures r.states[i] == EulerReference(f, h, r.times[i], r.states[i - 1])
    {
      EulerStepMatchesReference(f, h, r.times[i], r.states[i - 1]);
    }
  }

  /** With a length-preserving derivative `rk4` never raises, its states keep
      the length of `y0`, and each one is the RK4 update of the one before. */
  lemma RK4KeepsLength(f: Derivative, y0: Vector, tStart: real, tMax: real, h: real)
    requires GridFinite(tStart, tMax, h) && PreservesLength(f, |y0|)
    ensures RK4(f, y0, tStart, tMax, h).Ok?
    ensures var r := RK4(f, y0, tStart, tMax, h).value;
      forall i :: 0 <= i < |r.states| ==> |r.states[i]| == |y0|
    ensures var r := RK4(f, y0, tStart, tMax, h).value;
      forall i :: 1 <= i < |r.states| ==> r.states[i] == RK4Reference(f, h, r.times[i], r.states[i - 1])
  {
    var t := Arrange(tStart, tMax, h);
    var step := RK4LoopStep(f, h);
    forall s: real, y: Vector | |y| == |y0|
      ensures step(s, y).Ok? && |step(s, y).value| == |y0|
    {
      RK4StepMatchesReference(f, h, s, y);
    }
    StatesKeepLength(step, t, y0, StateCount(t));
    var r := RK4(f, y0, tStart, tMax, h).value;
    forall i | 1 <= i < |r.states|
      ensures r.states[i] == RK4Reference(f, h, r.times[i], r.states[i - 1])
    {
      RK4StepMatchesReference(f, h, r.times[i], r.states[i - 1]);
    }
  }

  /** With a constant derivative `k` the Euler run is exact: after `i` steps
      the state is `y0 + (i·h)·k`. */
  lemma EulerExactForConstant(f: Derivative, y0: Vector, tStart: real, tMax: real, h: real, k: Vector)
    requires GridFinite(tStart, tMax, h) && |k| == |y0| && ConstantOn(f, |y0|, k)
    ensures Euler(f, y0, tStart, tMax, h).Ok?
    ensures var r := Euler(f, y0, tStart, tMax, h).value;
      forall i :: 0 <= i < |r.states| ==> r.states[i] == Translate(y0, (i as real) * h, k)
  {
    var t := Arrange(tStart, tMax, h);
    var step := EulerLoopStep(f, h);
    forall s: real, y: Vector | |y| == |y0|
      ensures step(s, y) == Ok(Translate(y, h, k))
    {
      assert f(s, y) == k;
      assert EulerStep(f, h, s, y).value == Translate(y, h, k);
    }
    StatesTranslate(step, t, y0, StateCount(t), h, k);
    var ys := States(step, t, y0, StateCount(t)).value;
    assert Euler(f, y0, tStart, tMax, h) == Ok(Trajectory(t, ys));
    forall i: nat | i < |ys|
      ensures ys[i] == Translate(y0, (i as real) * h, k)
    {
      DriftClosedForm(y0, h, k, i);
    }
  }

  /** One RK4 step with a constant derivative `k` moves the state by exactly `h·k`. */
  lemma RK4StepForConstant(f: Derivative, h: real, t: real, y: Vector, k: Vector)
    requires |k| == |y| && ConstantOn(f, |y|, k)
    ensures RK4Step(f, h, t, y) == Ok(Translate(y, h, k))
  {
    assert PreservesLength(f, |y|);
    RK4StepMatchesReference(f, h, t, y);
    var r := RK4Reference(f, h, t, y);
    assert f(t, y) == k;
    assert f(t + h / 2.0, Translate(y, h / 2.0, k)) == k;
    assert f(t + h, Translate(y, h, k)) == k;
    forall j | 0 <= j < |y|
      ensures r[j] == y[j] + h * k[j]
    {
      assert k[j] + 2.0 * k[j] + 2.0 * k[j] + k[j] == 6.0 * k[j];
    }
    assert r == Translate(y, h, k);
  }

  /** With a constant derivative `k` the RK4 run has drifted `i` times at index `i`. */
  lemma RK4DriftsForConstant(f: Derivative, y0: Vector, tStart: real, tMax: real, h: real, k: Vector)
    requires GridFinite(tStart, tMax, h) && |k| == |y0| && ConstantOn(f, |y0|, k)
    ensures RK4(f, y0, tStart, tMax, h).Ok?
    ensures var r := RK4(f, y0, tStart, tMax, h).value;
      forall i :: 0 <= i < |r.states| ==> r.states[i] == Drift(y0, h, k, i)
  {
    var t := Arrange(tStart, tMax, h);
    var step := RK4LoopStep(f, h);
    forall s: real, y: Vector | |y| == |y0|
      ensures step(s, y) == Ok(Translate(y, h, k))
    {
      RK4StepForConstant(f, h, s, y, k);
    }
    StatesTranslate(step, t, y0, StateCount(t), h, k);
  }

  /** With a constant derivative `k` the RK4 run is exact: after `i` steps
      the state is `y0 + (i·h)·k`. */
  lemma RK4ExactForConstant(f: Derivative, y0: Vector, tStart: real, tMax: real, h: real, k: Vector)
    requires GridFinite(tStart, tMax, h) && |k| == |y0| && ConstantOn(f, |y0|, k)
    ensures RK4(f, y0, tStart, tMax, h).Ok?
    ensures var r := RK4(f, y0, tStart, tMax, h).value;
      forall i :: 0 <= i < |r.states| ==> r.states[i] == Translate(y0, (i as real) * h, k)
  {
    var t := Arrange(tStart, tMax, h);
    RK4DriftsForConstant(f, y0, tStart, tMax, h, k);
    forall i: nat | i < StateCount(t)
      ensures Drift(y0, h, k, i) == Translate(y0, (i as real) * h, k)
    {
      DriftClosedForm(y0, h, k, i);
    }
  }

  /** If the derivative at the first step has the wrong length, `euler` raises
      (as soon as the grid has a second point). */
  lemma EulerRaisesOnBadDerivative(f: Derivative, y0: Vector, tStart: real, tMax: real, h: real)
    requires GridFinite(tStart, tMax, h)
    requires |Arrange(tStart, tMax, h)| >= 2
    requires |f(Arrange(tStart, tMax, h)[1], y0)| != |y0|
    ensures Euler(f, y0, tStart, tMax, h) == Err(DimensionMismatch)
  {
    var t := Arrange(tStart, tMax, h);
    var step := EulerLoopStep(f, h);
    EulerStepMatchesReference(f, h, t[1], y0);
    assert States(step, t, y0, 2) == Err(DimensionMismatch);
    StatesStayFailed(step, t, y0, 2, StateCount(t));
  }

  /** If the derivative at the first step has the wrong length, `rk4` raises
      (as soon as the grid has a second point). */
  lemma RK4RaisesOnBadDerivative(f: Derivative, y0: Vector, tStart: real, tMax: real, h: real)
    requires GridFinite(tStart, tMax, h)
    requires |Arrange(tStart, tMax, h)| >= 2
    requires |f(Arrange(tStart, tMax, h)[1], y0)| != |y0|
    ensures RK4(f, y0, tStart, tMax, h) == Err(DimensionMismatch)
  {
    var t := Arrange(tStart, tMax, h);
    var step := RK4LoopStep(f, h);
    RK4StepRaises(f, h, t[1], y0);
    assert States(step, t, y0, 2) == Err(DimensionMismatch);
    StatesStayFailed(step, t, y0, 2, StateCount(t));
  }

  /** An Euler step raises only the dimension error. */
  lemma EulerStepRaisesOnly(f: Derivative, h: real)
    ensures RaisesOnly(EulerLoopStep(f, h), DimensionMismatch)
  {
    forall s: real, y: Vector | EulerLoopStep(f, h)(s, y).Err?
      ensures EulerLoopStep(f, h)(s, y).error == DimensionMismatch
    {
      EulerStepMatchesReference(f, h, s, y);
    }
  }

  /** `euler` raises exactly when some step `m` finds `f(t[m], y[m-1])` of
      the wrong length, and what it raises is the dimension error. */
  lemma EulerRaisesIff(f: Derivative, y0: Vector, tStart: real, tMax: real, h: real)
    requires GridFinite(tStart, tMax, h)
    ensures Euler(f, y0, tStart, tMax, h).Err? <==>
      exists m: nat :: FailsAt(EulerLoopStep(f, h), Arrange(tStart, tMax, h), y0, m)
    ensures forall m: nat :: FailsAt(EulerLoopStep(f, h), Arrange(tStart, tMax, h), y0, m) ==>
      var y := States(EulerLoopStep(f, h), Arrange(tStart, tMax, h), y0, m).value[m - 1];
      |f(Arrange(tStart, tMax, h)[m], y)| != |y|
    ensures Euler(f, y0, tStart, tMax, h).Err? ==> Euler(f, y0, tStart, tMax, h) == Err(DimensionMismatch)
  {
    var t := Arrange(tStart, tMax, h);
    var step := EulerLoopStep(f, h);
    StatesRaiseIff(step, t, y0, StateCount(t));
    EulerStepRaisesOnly(f, h);
    StatesRaiseOnly(step, t, y0, StateCount(t), DimensionMismatch);
    forall m: nat | FailsAt(step, t, y0, m)
      ensures var y := States(step, t, y0, m).value[m - 1]; |f(t[m], y)| != |y|
    {
      EulerStepMatchesReference(f, h, t[m], States(step, t, y0, m).value[m - 1]);
    }
  }

  /** An RK4 step raises only the dimension error. */
  lemma RK4StepRaisesOnly(f: Derivative, h: real)
    ensures RaisesOnly(RK4LoopStep(f, h), DimensionMismatch)
  {
  }

  /** `rk4` raises exactly when some step `m` raises, and what it raises is
      the dimension error. `RK4FailingStep` says what makes a step raise. */
  lemma RK4RaisesIff(f: Derivative, y0: Vector, tStart: real, tMax: real, h: real)
    requires GridFinite(tStart, tMax, h)
    ensures RK4(f, y0, tStart, tMax, h).Err? <==>
      exists m: nat :: FailsAt(RK4LoopStep(f, h), Arrange(tStart, tMax, h), y0, m)
    ensures RK4(f, y0, tStart, tMax, h).Err? ==> RK4(f, y0, tStart, tMax, h) == Err(DimensionMismatch)
  {
    var t := Arrange(tStart, tMax, h);
    var step := RK4LoopStep(f, h);
    StatesRaiseIff(step, t, y0, StateCount(t));
    RK4StepRaisesOnly(f, h);
    StatesRaiseOnly(step, t, y0, StateCount(t), DimensionMismatch);
  }

  /** Once the first `m` states of `rk4` are computed, step `m` raises
      exactly when one of its stage derivatives has the wrong length. */
  lemma RK4FailingStep(f: Derivative, h: real, t: seq<real>, y0: Vector, m: nat)
    requires 1 <= m < StateCount(t) && States(RK4LoopStep(f, h), t, y0, m).Ok?
    ensures FailsAt(RK4LoopStep(f, h), t, y0, m) <==>
      !RK4StagesKeepLength(f, h, t[m], States(RK4LoopStep(f, h), t, y0, m).value[m - 1])
  {
    RK4StepOkIff(f, h, t[m], States(RK4LoopStep(f, h), t, y0, m).value[m - 1]);
  }

  // ---------------------------------------------------------------------
  // Adams-Bashforth runs

  /** One AB3 step with a constant derivative `k` moves the state by exactly `h·k`. */
  lemma AB3StepForConstant(f: Derivative, h: real, t1: real, y1: Vector, t2: real, y2: Vector, t3: real, y3: Vector, k: Vector)
    requires |y2| == |y1| && |y3| == |y1| && |k| == |y1| && ConstantOn(f, |y1|, k)
    ensures AB3Step(f, h, t1, y1, t2, y2, t3, y3) == Ok(Translate(y1, h, k))
  {
    assert PreservesLength(f, |y1|);
    AB3StepMatchesReference(f, h, t1, y1, t2, y2, t3, y3);
    var r := AB3Reference(f, h, t1, y1, t2, y2, t3, y3);
    assert f(t1, y1) == k && f(t2, y2) == k && f(t3, y3) == k;
    forall j | 0 <= j < |y1|
      ensures r[j] == y1[j] + h * k[j]
    {
      assert 23.0 * k[j] - 16.0 * k[j] + 5.0 * k[j] == 12.0 * k[j];
    }
    assert r == Translate(y1, h, k);
  }

  /** The AB3 loop with a length-preserving derivative, from bootstrap states
      of one common length, never raises and keeps that length. */
  lemma {:induction false} AB3StatesKeepLength(f: Derivative, h: real, t: seq<real>, boot: seq<Vector>, n: nat)
    requires |boot| == 3 && 3 <= n <= |t|
    requires |boot[1]| == |boot[0]| && |boot[2]| == |boot[0]| && PreservesLength(f, |boot[0]|)
    ensures AB3States(f, h, t, boot, n).Ok?
    ensures forall i :: 0 <= i < n ==> |AB3States(f, h, t, boot, n).value[i]| == |boot[0]|
  {
    if n > 3 {
      AB3StatesKeepLength(f, h, t, boot, n - 1);
      var ys := AB3States(f, h, t, boot, n - 1).value;
      AB3StepMatchesReference(f, h, t[n - 1], ys[n - 2], t[n - 2], ys[n - 3], t[n - 3], ys[n - 4]);
    } else {
      assert AB3States(f, h, t, boot, n).value == boot;
    }
  }

  /** The AB3 loop with a constant derivative, from bootstrap states that
      have drifted 0, 1 and 2 times, has drifted `i` times at index `i`. */
  lemma {:induction false} AB3StatesTranslate(f: Derivative, h: real, t: seq<real>, boot: seq<Vector>, n: nat, y0: Vector, k: Vector)
    requires |boot| == 3 && 3 <= n <= |t| && |k| == |y0| && ConstantOn(f, |y0|, k)
    requires forall i :: 0 <= i < 3 ==> boot[i] == Drift(y0, h, k, i)
    ensures AB3States(f, h, t, boot, n).Ok?
    ensures forall i :: 0 <= i < n ==> AB3States(f, h, t, boot, n).value[i] == Drift(y0, h, k, i)
  {
    if n > 3 {
      AB3StatesTranslate(f, h, t, boot, n - 1, y0, k);
      var ys := AB3States(f, h, t, boot, n - 1).value;
      AB3StepForConstant(f, h, t[n - 1], ys[n - 2], t[n - 2], ys[n - 3], t[n - 3], ys[n - 4], k);
    } else {
      assert AB3States(f, h, t, boot, n).value == boot;
    }
  }

  /** With a length-preserving derivative `adams_bashforth3` never raises,
      its states keep the length of `y0`, and from index 3 on each one is the
      AB3 update of the three before it. */
  lemma AB3KeepsLength(f: Derivative, y0: Vector, tStart: real, tMax: real, h: real)
    requires AB3Finite(tStart, tMax, h) && PreservesLength(f, |y0|)
    ensures AB3(f, y0, tStart, tMax, h).Ok?
    ensures var r := AB3(f, y0, tStart, tMax, h).value;
      forall i :: 0 <= i < |r.states| ==> |r.states[i]| == |y0|
    ensures var r := AB3(f, y0, tStart, tMax, h).value;
      forall i :: 3 <= i < |r.states| ==>
        r.states[i] == AB3Reference(f, h, r.times[i], r.states[i - 1], r.times[i - 1], r.states[i - 2],
                                    r.times[i - 2], r.states[i - 3])
  {
    AB3StateLengths(f, y0, tStart, tMax, h);
    var r := AB3(f, y0, tStart, tMax, h).value;
    AB3StepsAreReference(f, h, r.times, r.states, |y0|);
  }

  lemma AB3StateLengths(f: Derivative, y0: Vector, tStart: real, tMax: real, h: real)
    requires AB3Finite(tStart, tMax, h) && PreservesLength(f, |y0|)
    ensures AB3(f, y0, tStart, tMax, h).Ok?
    ensures var r := AB3(f, y0, tStart, tMax, h).value;
      (|r.states| <= 3 || |r.states| <= |r.times|) && forall i :: 0 <= i < |r.states| ==> |r.states[i]| == |y0|
  {
    var t := Arrange(tStart, tMax, h);
    RK4KeepsLength(f, y0, tStart, tStart + h * 3.0, h);
    var boot := RK4(f, y0, tStart, tStart + h * 3.0, h).value.states;
    BootstrapGrid(tStart, tMax, h);
    if |t| > 3 {
      AB3StatesKeepLength(f, h, t, boot, |t|);
      assert AB3(f, y0, tStart, tMax, h) == Ok(Trajectory(t, AB3States(f, h, t, boot, |t|).value));
    } else {
      assert AB3(f, y0, tStart, tMax, h) == Ok(Trajectory(t, boot));
    }
  }

  /** A run of AB3 steps over states of one length is a run of AB3 updates. */
  lemma AB3StepsAreReference(f: Derivative, h: real, ts: seq<real>, ys: seq<Vector>, n: nat)
    requires PreservesLength(f, n)
    requires forall i :: 0 <= i < |ys| ==> |ys[i]| == n
    requires |ys| <= 3 || |ys| <= |ts|
    requires forall i :: 3 <= i < |ys| ==>
      AB3Step(f, h, ts[i], ys[i - 1], ts[i - 1], ys[i - 2], ts[i - 2], ys[i - 3]) == Ok(ys[i])
    ensures forall i :: 3 <= i < |ys| ==>
      ys[i] == AB3Reference(f, h, ts[i], ys[i - 1], ts[i - 1], ys[i - 2], ts[i - 2], ys[i - 3])
  {
    forall i | 3 <= i < |ys|
      ensures ys[i] == AB3Reference(f, h, ts[i], ys[i - 1], ts[i - 1], ys[i - 2], ts[i - 2], ys[i - 3])
    {
      AB3StepMatchesReference(f, h, ts[i], ys[i - 1], ts[i - 1], ys[i - 2], ts[i - 2], ys[i - 3]);
    }
  }

  /** With a constant derivative `k` the Adams-Bashforth run is exact: the
      state at index `i` is `y0 + (i·h)·k`, bootstrap included. */
  lemma AB3ExactForConstant(f: Derivative, y0: Vector, tStart: real, tMax: real, h: real, k: Vector)
    requires AB3Finite(tStart, tMax, h) && |k| == |y0| && ConstantOn(f, |y0|, k)
    ensures AB3(f, y0, tStart, tMax, h).Ok?
    ensures var r := AB3(f, y0, tStart, tMax, h).value;
      forall i :: 0 <= i < |r.states| ==> r.states[i] == Translate(y0, (i as real) * h, k)
  {
    var t := Arrange(tStart, tMax, h);
    RK4DriftsForConstant(f, y0, tStart, tStart + h * 3.0, h, k);
    var boot := RK4(f, y0, tStart, tStart + h * 3.0, h).value.states;
    BootstrapGrid(tStart, tMax, h);
    if |t| > 3 {
      AB3StatesTranslate(f, h, t, boot, |t|, y0, k);
    }
    var r := AB3(f, y0, tStart, tMax, h).value;
    forall i: nat | i < |r.states|
      ensures r.states[i] == Translate(y0, (i as real) * h, k)
    {
      DriftClosedForm(y0, h, k, i);
    }
  }

  /** If the derivative at the first bootstrap step has the wrong length,
      `adams_bashforth3` raises, even when its own grid is empty. */
  lemma AB3RaisesOnBadDerivative(f: Derivative, y0: Vector, tStart: real, tMax: real, h: real)
    requires h > 0.0
    requires |f(tStart + 2.0 * h, y0)| != |y0|
    ensures AB3(f, y0, tStart, tMax, h) == Err(DimensionMismatch)
  {
    ArrangeThreeSteps(tStart, h);
    assert Arrange(tStart, tStart + h * 3.0, h)[1] == tStart + 2.0 * h;
    RK4RaisesOnBadDerivative(f, y0, tStart, tStart + h * 3.0, h);
  }

  /** Step `m` of the AB3 loop raises: the first `m` states were computed
      and the AB3 step from states `m-1`, `m-2`, `m-3` raises. */
  predicate AB3FailsAt(f: Derivative, h: real, t: seq<real>, boot: seq<Vector>, m: nat) {
    |boot| == 3 && 3 <= m < |t| && AB3States(f, h, t, boot, m).Ok? &&
    var ys := AB3States(f, h, t, boot, m).value;
    AB3Step(f, h, t[m], ys[m - 1], t[m - 1], ys[m - 2], t[m - 2], ys[m - 3]).Err?
  }

  /** The first `n` states of the AB3 loop raise exactly when some step
      `m < n` raises, and what they raise is the dimension error. */
  lemma {:induction false} AB3StatesRaiseIff(f: Derivative, h: real, t: seq<real>, boot: seq<Vector>, n: nat)
    requires |boot| == 3 && 3 <= n <= |t|
    ensures AB3States(f, h, t, boot, n).Err? <==> exists m: nat :: m < n && AB3FailsAt(f, h, t, boot, m)
    ensures AB3States(f, h, t, boot, n).Err? ==> AB3States(f, h, t, boot, n) == Err(DimensionMismatch)
  {
    if n > 3 {
      AB3StatesRaiseIff(f, h, t, boot, n - 1);
      if AB3States(f, h, t, boot, n - 1).Ok? {
        if AB3States(f, h, t, boot, n).Err? {
          assert AB3FailsAt(f, h, t, boot, n - 1);
        }
      }
    }
  }

  /** `adams_bashforth3` raises exactly when its RK4 bootstrap raises or some
      AB3 step `m` raises; `AB3FailingStep` says what makes a step raise.
      (Which exception is raised is `AB3RaisesDimensionError`; the two are
      separate lemmas to keep each proof obligation small.) */
  lemma AB3RaisesIff(f: Derivative, y0: Vector, tStart: real, tMax: real, h: real)
    requires AB3Finite(tStart, tMax, h)
    ensures var boot := RK4(f, y0, tStart, tStart + h * 3.0, h);
      AB3(f, y0, tStart, tMax, h).Err? <==>
      boot.Err? || exists m: nat :: AB3FailsAt(f, h, Arrange(tStart, tMax, h), boot.value.states, m)
  {
    var t := Arrange(tStart, tMax, h);
    var boot := RK4(f, y0, tStart, tStart + h * 3.0, h);
    BootstrapGrid(tStart, tMax, h);
    if boot.Ok? && |t| > 3 {
      AB3StatesRaiseIff(f, h, t, boot.value.states, |t|);
    }
  }

  /** Once the first `m` states of the AB3 loop are computed, step `m`
      raises exactly when `k1`, `k2` or `k3` has the wrong length. */
  lemma AB3FailingStep(f: Derivative, h: real, t: seq<real>, boot: seq<Vector>, m: nat)
    requires |boot| == 3 && 3 <= m < |t| && AB3States(f, h, t, boot, m).Ok?
    ensures var ys := AB3States(f, h, t, boot, m).value;
      AB3FailsAt(f, h, t, boot, m) <==>
      !AB3DerivativesKeepLength(f, t[m], ys[m - 1], t[m - 1], ys[m - 2], t[m - 2], ys[m - 3])
  {
    var ys := AB3States(f, h, t, boot, m).value;
    AB3StepOkIff(f, h, t[m], ys[m - 1], t[m - 1], ys[m - 2], t[m - 2], ys[m - 3]);
  }

  /** What `adams_bashforth3` raises is the dimension error, whether in its
      RK4 bootstrap or in an AB3 step. */
  lemma AB3RaisesDimensionError(f: Derivative, y0: Vector, tStart: real, tMax: real, h: real)
    requires AB3Finite(tStart, tMax, h)
    ensures AB3(f, y0, tStart, tMax, h).Err? ==> AB3(f, y0, tStart, tMax, h) == Err(DimensionMismatch)
  {
    var t := Arrange(tStart, tMax, h);
    var boot := RK4(f, y0, tStart, tStart + h * 3.0, h);
    BootstrapGrid(tStart, tMax, h);
    RK4RaisesIff(f, y0, tStart, tStart + h * 3.0, h);
    if boot.Ok? && |t| > 3 {
      AB3StatesRaiseIff(f, h, t, boot.value.states, |t|);
    }
  }

  // ---------------------------------------------------------------------
  // A zero derivative

  /** The zero vector of length `n`. */
  function Zeros(n: nat): (z: Vector)
    ensures |z| == n && forall j :: 0 <= j < n ==> z[j] == 0.0
  {
    seq(n, j => 0.0)
  }

  /** Moving by any multiple of the zero vector stays put. */
  lemma TranslateByZero(y: Vector, c: real)
    ensures Translate(y, c, Zeros(|y|)) == y
  {
  }

  /** If `f` returns the zero vector, every state of `euler`, `rk4` and
      `adams_bashforth3` is `y0`. */
  lemma ZeroDerivativeIsStationary(f: Derivative, y0: Vector, tStart: real, tMax: real, h: real)
    requires GridFinite(tStart, tMax, h) && ConstantOn(f, |y0|, Zeros(|y0|))
    ensures Euler(f, y0, tStart, tMax, h).Ok? && forall y :: y in Euler(f, y0, tStart, tMax, h).value.states ==> y == y0
    ensures RK4(f, y0, tStart, tMax, h).Ok? && forall y :: y in RK4(f, y0, tStart, tMax, h).value.states ==> y == y0
    ensures AB3Finite(tStart, tMax, h) ==>
      AB3(f, y0, tStart, tMax, h).Ok? && forall y :: y in AB3(f, y0, tStart, tMax, h).value.states ==> y == y0
  {
    var z := Zeros(|y0|);
    EulerExactForConstant(f, y0, tStart, tMax, h, z);
    RK4ExactForConstant(f, y0, tStart, tMax, h, z);
    if AB3Finite(tStart, tMax, h) {
      AB3ExactForConstant(f, y0, tStart, tMax, h, z);
    }
    forall c: real
      ensures Translate(y0, c, z) == y0
    {
      TranslateByZero(y0, c);
    }
  }

  // ---------------------------------------------------------------------
  // Index alignment

  /** With a constant derivative `k` the exact solution at time `τ` is
      `y0 + (τ - t_start)·k`. The state `euler` and `rk4` pair with grid time
      `t[i]` is the exact solution one step earlier, at `t[i] - h`: `y0` sits
      at `t_start + h`, not at `t_start`. */
  lemma ConstantRunLagsOneStep(f: Derivative, y0: Vector, tStart: real, tMax: real, h: real, k: Vector)
    requires GridFinite(tStart, tMax, h) && |k| == |y0| && ConstantOn(f, |y0|, k)
    ensures Euler(f, y0, tStart, tMax, h).Ok? && RK4(f, y0, tStart, tMax, h).Ok?
    ensures var r := Euler(f, y0, tStart, tMax, h).value;
      forall i :: 0 <= i < |r.times| ==> r.states[i] == Translate(y0, (r.times[i] - h) - tStart, k)
    ensures var r := RK4(f, y0, tStart, tMax, h).value;
      forall i :: 0 <= i < |r.times| ==> r.states[i] == Translate(y0, (r.times[i] - h) - tStart, k)
  {
    EulerExactForConstant(f, y0, tStart, tMax, h, k);
    RK4ExactForConstant(f, y0, tStart, tMax, h, k);
    var t := Arrange(tStart, tMax, h);
    forall i: nat | i < |t|
      ensures (t[i] - h) - tStart == (i as real) * h
    {
      GridPointLessOneStep(tStart, h, i);
    }
  }

  lemma GridPointLessOneStep(start: real, h: real, i: nat)
    ensures (GridPoint(start, h, i) - h) - start == (i as real) * h
  {
  }
}
