/** The fixed-step integrators of odeint.py: `euler`, `rk4` and
    `adams_bashforth3`. The derivative `f(t, y, *args)` is an abstract total
    function of time and state (the extra `args` are folded into it). Every
    arithmetic step goes through the Vector operators, so a derivative of
    the wrong length raises exactly where the Python code would. */
module FixedStep {
  import opened Outcomes
  import opened Vectors
  import opened TimeGrid

  /** `f(t, y, *args)` with `args` fixed. */
  type Derivative = (real, Vector) -> Vector

  /** What an integrator returns: the grid `t` and the list of states `y`. */
  datatype Trajectory = Trajectory(times: seq<real>, states: seq<Vector>)

  /** One step of a single-history method: the new state from the grid time and the last state. */
  type Step = (real, Vector) -> Result<Vector>

  /** `y[-1] + h * f(t[i], y[-1])`. */
  function EulerStep(f: Derivative, h: real, t: real, y: Vector): Result<Vector> {
    Add(y, ScaleLeft(h, f(t, y)))
  }

  /** The body of the `rk4` loop, with `prev = y[-1]` and `t = t[i]`. */
  function RK4Step(f: Derivative, h: real, t: real, prev: Vector): Result<Vector> {
    var k1 := f(t, prev);
    var y2 :- Add(prev, ScaleLeft(h / 2.0, k1));
    var k2 := f(t + h / 2.0, y2);
    var y3 :- Add(prev, ScaleLeft(h / 2.0, k2));
    var k3 := f(t + h / 2.0, y3);
    var y4 :- Add(prev, ScaleLeft(h, k3));
    var k4 := f(t + h, y4);
    var s1 :- Add(k1, ScaleLeft(2.0, k2));
    var s2 :- Add(s1, ScaleLeft(2.0, k3));
    var s :- Add(s2, k4);
    Add(prev, ScaleLeft(h / 6.0, s))
  }

  /** The body of the `adams_bashforth3` loop: `y[-1] + h * (23 * k1 - 16 * k2 + 5 * k3) / 12`
      with `k1 = f(t[i], y[-1])`, `k2 = f(t[i-1], y[-2])`, `k3 = f(t[i-2], y[-3])`.
      The division by 12 is `Vector / scalar`. */
  function AB3Step(f: Derivative, h: real, t1: real, y1: Vector, t2: real, y2: Vector, t3: real, y3: Vector): Result<Vector> {
    var k3 := f(t3, y3);
    var k2 := f(t2, y2);
    var k1 := f(t1, y1);
    var d :- Sub(ScaleLeft(23.0, k1), ScaleLeft(16.0, k2));
    var s :- Add(d, ScaleLeft(5.0, k3));
    var inc :- DivScalar(ScaleLeft(h, s), 12.0);
    Add(y1, inc)
  }

  /** How many states `y = [y0]` holds after `for i in range(1, len(t))`. */
  function StateCount(t: seq<real>): nat {
    if |t| == 0 then 1 else |t|
  }

  /** The first `n` states of `y = [y0]; for i in range(1, len(t)): y.append(step(t[i], y[-1]))`. */
  function States(step: Step, t: seq<real>, y0: Vector, n: nat): (r: Result<seq<Vector>>)
    requires 1 <= n <= StateCount(t)
    ensures r.Ok? ==> |r.value| == n && r.value[0] == y0
    ensures r.Ok? ==> forall i :: 1 <= i < n ==> step(t[i], r.value[i - 1]) == Ok(r.value[i])
  {
    if n == 1 then Ok([y0])
    else
      var ys :- States(step, t, y0, n - 1);
      var y :- step(t[n - 1], ys[n - 2]);
      Ok(ys + [y])
  }

  /** The loop step of `euler`. */
  function EulerLoopStep(f: Derivative, h: real): Step {
    (s, y) => EulerStep(f, h, s, y)
  }

  /** The loop step of `rk4`. */
  function RK4LoopStep(f: Derivative, h: real): Step {
    (s, y) => RK4Step(f, h, s, y)
  }

  /** The arguments under which `arrange(t_start, t_max, h)` terminates. */
  predicate GridFinite(tStart: real, tMax: real, h: real) {
    Finite(tStart + h, tMax, h)
  }

  /** `euler(f, y0, t_start, t_max, h)`. */
  function Euler(f: Derivative, y0: Vector, tStart: real, tMax: real, h: real): (r: Result<Trajectory>)
    requires GridFinite(tStart, tMax, h)
    ensures r.Ok? ==> r.value.times == Arrange(tStart, tMax, h)
    ensures r.Ok? ==> |r.value.states| == StateCount(r.value.times) && r.value.states[0] == y0
    ensures r.Ok? ==> forall i :: 1 <= i < |r.value.states| ==>
      EulerStep(f, h, r.value.times[i], r.value.states[i - 1]) == Ok(r.value.states[i])
  {
    var t := Arrange(tStart, tMax, h);
    var ys :- States(EulerLoopStep(f, h), t, y0, StateCount(t));
    Ok(Trajectory(t, ys))
  }

  /** `rk4(f, y0, t_start, t_max, h)`. */
  function RK4(f: Derivative, y0: Vector, tStart: real, tMax: real, h: real): (r: Result<Trajectory>)
    requires GridFinite(tStart, tMax, h)
    ensures r.Ok? ==> r.value.times == Arrange(tStart, tMax, h)
    ensures r.Ok? ==> |r.value.states| == StateCount(r.value.times) && r.value.states[0] == y0
    ensures r.Ok? ==> forall i :: 1 <= i < |r.value.states| ==>
      RK4Step(f, h, r.value.times[i], r.value.states[i - 1]) == Ok(r.value.states[i])
  {
    var t := Arrange(tStart, tMax, h);
    var ys :- States(RK4LoopStep(f, h), t, y0, StateCount(t));
    Ok(Trajectory(t, ys))
  }

  /** The arguments under which both grids of `adams_bashforth3` terminate:
      `arrange(t_start, t_max, h)` and the bootstrap `arrange(t_start, t_start + 3h, h)`. */
  predicate AB3Finite(tStart: real, tMax: real, h: real) {
    h > 0.0 || (h < 0.0 && tStart + h > tMax)
  }

  /** The first `n` states of the `adams_bashforth3` loop, started from the three bootstrap states. */
  function AB3States(f: Derivative, h: real, t: seq<real>, boot: seq<Vector>, n: nat): (r: Result<seq<Vector>>)
    requires |boot| == 3 && 3 <= n <= |t|
    ensures r.Ok? ==> |r.value| == n && r.value[..3] == boot
    ensures r.Ok? ==> forall i :: 3 <= i < n ==>
      AB3Step(f, h, t[i], r.value[i - 1], t[i - 1], r.value[i - 2], t[i - 2], r.value[i - 3]) == Ok(r.value[i])
  {
    if n == 3 then Ok(boot)
    else
      var ys :- AB3States(f, h, t, boot, n - 1);
      var y :- AB3Step(f, h, t[n - 1], ys[n - 2], t[n - 2], ys[n - 3], t[n - 3], ys[n - 4]);
      Ok(ys + [y])
  }

  /** `adams_bashforth3(f, y0, t_start, t_max, h)`: the states of
      `rk4(f, y0, t_start, t_start + 3h, h)`, then one AB3 step for every
      grid index from 3 on. */
  function AB3(f: Derivative, y0: Vector, tStart: real, tMax: real, h: real): (r: Result<Trajectory>)
    requires AB3Finite(tStart, tMax, h)
    ensures r.Ok? ==> r.value.times == Arrange(tStart, tMax, h)
    ensures r.Ok? && h > 0.0 ==> |r.value.states| == (if |r.value.times| < 3 then 3 else |r.value.times|)
    ensures r.Ok? && h < 0.0 ==> r.value.times == [] && r.value.states == [y0]
    ensures r.Ok? && h > 0.0 ==> RK4(f, y0, tStart, tStart + h * 3.0, h).Ok?
    ensures r.Ok? && h > 0.0 ==> r.value.states[..3] == RK4(f, y0, tStart, tStart + h * 3.0, h).value.states
    ensures r.Ok? ==> forall i :: 3 <= i < |r.value.states| ==>
      AB3Step(f, h, r.value.times[i], r.value.states[i - 1], r.value.times[i - 1], r.value.states[i - 2],
              r.value.times[i - 2], r.value.states[i - 3]) == Ok(r.value.states[i])
  {
    var t := Arrange(tStart, tMax, h);
    var boot :- RK4(f, y0, tStart, tStart + h * 3.0, h);
    BootstrapGrid(tStart, tMax, h);
    if |t| <= 3 then Ok(Trajectory(t, boot.states))
    else
      var ys :- AB3States(f, h, t, boot.states, |t|);
      Ok(Trajectory(t, ys))
  }

  /** The bootstrap grid has three points when `h > 0` and none when `h < 0`,
      and a main grid with more than three points needs `h > 0`. */
  lemma BootstrapGrid(tStart: real, tMax: real, h: real)
    requires AB3Finite(tStart, tMax, h)
    ensures h > 0.0 ==> |Arrange(tStart, tStart + h * 3.0, h)| == 3
    ensures h < 0.0 ==> Arrange(tStart, tStart + h * 3.0, h) == [] && Arrange(tStart, tMax, h) == []
  {
    if h > 0.0 {
      ArrangeThreeSteps(tStart, h);
    }
  }
}
