# Double-pendulum integrator core, modelled in Dafny

This project models two parts of the double-pendulum simulator.

- **The algebra layer of `algebra.py`.**
  - `Vector` is a list of floats with Python's arithmetic operators.
  - `Matrix` is a list of row Vectors.
  - `arrange` builds the time grid.
- **The fixed-step integrators of `odeint.py`.** These are `euler`, `rk4` and `adams_bashforth3`.

Floats are modelled as exact reals, so identities such as `(a + b) - b == a` hold exactly. A Python exception becomes `Err(kind)` of a `Result`. The Matrix operators that return `None` give `Ok(None)`.

The integrators take the derivative `f(t, y, *args)` as an abstract total function `Derivative = (real, Vector) -> Vector`, with the extra arguments folded into it. Every arithmetic step goes through the modelled Vector operators. A derivative that returns a vector of the wrong length therefore raises exactly where the Python code would.

Files:

- `outcomes.dfy` (`Outcomes`): the exception kinds, `Option` and `Result`.
- `vector.dfy` (`Vectors`): the Vector operators and their algebra.
- `matrix.dfy` (`Matrices`): the constructor, `column`, and the Matrix operators.
  - `+` and `/` copy only the list of rows and then update the shared row objects. They also change the receiver, so they are methods that return the receiver's rows after the call.
- `arrange.dfy` (`TimeGrid`): `arrange` and the facts that characterise its grid.
- `odeint.dfy` (`FixedStep`): the three integrators.
- `odeint_properties.dfy` (`FixedStepProperties`): the integrators compared against the textbook update formulas. It also covers exactness for constant derivatives, length preservation and error propagation.

### Trajectory alignment

The integrators pair times and states as follows:

- `arrange(t_start, t_max, h)` starts at `t_start + h` (`algebra.py:124`). `y0` is therefore paired with `t[0] = t_start + h`. Each Euler or RK4 step evaluates `f` at the new grid time `t[i]`.
  - `FixedStepProperties.ConstantRunLagsOneStep` shows the effect. With a constant derivative, the state paired with `t[i]` is the exact solution at `t[i] - h`.
- When the grid is empty, `euler` and `rk4` return one state (`y0`) and no times, so `len(times) != len(states)`.
- For `h > 0`, `adams_bashforth3` returns at least the three bootstrap states, even when its own grid has fewer than three points. For `h < 0` both grids are empty and it returns only `y0`.
- With a constant derivative `k` over `[0, T]` with `T = n·h`, the grid has `n` points. For `euler` and `rk4` with `n >= 1`, and for `adams_bashforth3` with `n >= 3`, the last state is therefore `y0 + (n - 1)·h·k`, not `y0 + T·k`. With `n = 0`, `euler` and `rk4` return only `y0`. For `adams_bashforth3` with `h > 0` and `n < 3`, the three bootstrap states are returned, so the last state is `y0 + 2h·k`.

`arrange` loops forever when `step <= 0` and `start + step <= stop`. Every operation built on it requires the arguments under which the Python loop ends. `adams_bashforth3` also builds the bootstrap grid `arrange(t_start, t_start + 3h, h)`, which never ends when `h == 0`.

## Model

| member | source | states |
|---|---|---|
| `Vectors.Add` | algebra.py:56-67 | `a + b` for an iterable `b` succeeds exactly when the lengths agree. Otherwise it raises the dimension error. Component `i` of the result is `a[i] + b[i]`. |
| `Vectors.AddScalar` | algebra.py:56-61 | `a + k` for a non-iterable `k` keeps the length and adds `k` to every component. |
| `Vectors.AddScalarUndo` | algebra.py:56-61 | Broadcasting `k` and then `-k` gives back the original vector. |
| `Vectors.Sub` | algebra.py:72-78 | `a - b` succeeds exactly when the lengths agree and otherwise raises the dimension error. Component `i` is `a[i] - b[i]`. |
| `Vectors.AddSubCancel` | algebra.py:56-78 | For equal lengths, `(a + b) - b == a`. |
| `Vectors.Scale` | algebra.py:80-84 | `a * k` for a scalar keeps the length and multiplies every component by `k`. |
| `Vectors.ScaleLeft` | algebra.py:86-87 | `k * a` goes through `__rmul__` to `a * k`, and component `i` equals `k · a[i]`. |
| `Vectors.Dot` | algebra.py:80-82 | `a * b` for a Vector `b` has no length check. It succeeds exactly when `b` is at least as long as `a`, raises IndexError otherwise, and an empty `a` gives 0. |
| `Vectors.DotSnoc` | algebra.py:80-82 | Appending a component `x` to `a` adds `x · b[len(a)]` to `a * b`, as the sum over `range(len(a))` does. With the empty case this determines `a * b`. |
| `Vectors.DotSymmetric` | algebra.py:80-82 | For equal lengths the dot product does not depend on operand order. |
| `Vectors.DotIgnoresExtraComponents` | algebra.py:80-82 | Components of `b` beyond the length of `a` do not affect `a * b`. |
| `Vectors.DotSelfIsSquaredNorm` | algebra.py:80-82 | `a * a` is the sum of squares under `a.norm()`. |
| `Vectors.DivScalar` | algebra.py:89-91 | `a / k` for a scalar is `a * (1 / k)`. It raises ZeroDivisionError exactly when `k == 0`; otherwise each result component times `k` is the original component. |
| `Vectors.ScaleDivRoundTrip` | algebra.py:80-91 | For non-zero `k`, `(a * k) / k == a`. |
| `Vectors.DivVec` | algebra.py:89-98 | `a / b` for a Vector `b` succeeds exactly when `b` is at least as long as `a`, and raises IndexError otherwise. Where `b[i] != 0`, the result times `b[i]` gives back `a[i]`. Where `b[i] == 0`, the result is `-10**10`. |
| `Vectors.DivVecSentinelExample` | algebra.py:89-98 | `[1, 2] / [0, 5]` is `[-10**10, 0.4]`. |
| `Vectors.Abs` | algebra.py:119-120 | `abs()` keeps the length. Every component is non-negative and is either the original component or its negation. |
| `Vectors.SquaredNorm` | algebra.py:116-117 | The sum of squares under `norm()` is non-negative. |
| `Vectors.SquaredNormZeroIff` | algebra.py:116-117 | The sum of squares is zero exactly when every component is zero. |
| `Vectors.AbsKeepsSquaredNorm` | algebra.py:116-120 | Taking `abs()` first does not change the norm. |
| `TimeGrid.ArrangeFrom` | algebra.py:126-128 | The `while current <= stop` loop yields `current + k·step` for each `k`, all of them at most `stop`, and the next point would pass `stop`. |
| `TimeGrid.Arrange` | algebra.py:123-129 | The grid after `start` is `start + (k+1)·step`. Every point is at most `stop` and the next one would pass it. It is empty exactly when `start + step > stop`. |
| `TimeGrid.ArrangeSpacing` | algebra.py:123-129 | Consecutive grid points differ by `step`. For `step > 0` every point lies above `start`, so `start` itself is never in the grid. |
| `TimeGrid.ArrangeUnique` | algebra.py:123-129 | Those properties determine `arrange` completely. Any evenly spaced sequence after `start` that stops exactly before passing `stop` is the grid. |
| `TimeGrid.ArrangeLength` | algebra.py:123-129 | For `step > 0` and `start <= stop`, the grid has `floor((stop - start) / step)` points. |
| `TimeGrid.ArrangeThreeSteps` | algebra.py:123-129 | The bootstrap grid `arrange(t, t + 3h, h)` with `h > 0` is exactly `[t+h, t+2h, t+3h]`. |
| `Matrices.FromItems` | algebra.py:5-6 | `Matrix(a)` succeeds exactly when every element is iterable and raises TypeError otherwise. Row `k` is a copy of element `k`. |
| `Matrices.FromItemsCopiesRows` | algebra.py:5-6 | Constructing a Matrix from the rows of a matrix gives back the same rows. |
| `Matrices.Column` | algebra.py:35-36 | `column(i)` has one entry per row, and entry `k` is `rows[k][i]`, with Python's negative indices resolved from the end. It raises IndexError exactly when some row is too short for `i`. |
| `Matrices.Columns` | algebra.py:35-36 | The matrix of all the columns of a rectangular matrix is its transpose. |
| `Matrices.ColumnsRoundTrip` | algebra.py:35-36 | Rebuilding a matrix from all its columns, and doing that again, gives back the original rows. |
| `Matrices.MatrixSub` | algebra.py:11-13 | `m - other` returns None exactly when `other` is not a Matrix with the same number of rows. It raises when some pair of rows differs in length, and otherwise subtracts cell by cell. |
| `Matrices.MatrixMul` | algebra.py:18-21 | `m * Matrix` is None. `m * k` scales every cell. `m * Vector` raises IndexError if a row is longer than the Vector. Otherwise it raises TypeError unless `m` has no rows, because the dot products are numbers that `Matrix(...)` cannot iterate. A matrix with no rows gives an empty Matrix, not None. |
| `Matrices.MatrixRMul` | algebra.py:23-24 | `k * m` keeps the shape, scales every cell by `k`, and equals `m * k`. |
| `Matrices.MatrixAdd` | algebra.py:41-46 | `m + other` succeeds exactly when `other` has every cell of `m`; extra rows and columns are ignored. The result and the receiver's rows both become the cell-wise sum, and subtracting `other` gives `m` back. The first missing cell raises IndexError, or AttributeError when `other` is not a Matrix, and every cell before it is already summed in the receiver. |
| `Matrices.SubUndoesAdd` | algebra.py:11-13 | Subtracting the addend from a cell-wise sum gives back the first operand. |
| `Matrices.MatrixDiv` | algebra.py:26-33 | `m / other` returns None and leaves the receiver alone unless `other` is a Vector. Otherwise it succeeds exactly when every non-empty row `i` has a non-zero `other[i]`. Row `i`, in the result and in the receiver, times `other[i]` gives back the old row. The first non-empty row without a usable divisor raises IndexError if `other[i]` is missing or ZeroDivisionError if it is zero, and the rows before it are already divided. |
| `FixedStep.States` | odeint.py:7-9 | The loop `y = [y0]; for i in range(1, len(t)): y.append(step(t[i], y[-1]))` keeps `y0` first. Each later state is the step at the new grid time `t[i]` applied to the previous state. |
| `FixedStep.Euler` | odeint.py:5-10 | `euler` returns exactly `arrange(t_start, t_max, h)` as its times and `max(1, len(t))` states. It starts at `y0`, and each state is the Euler step at `t[i]` from the one before. |
| `FixedStep.RK4` | odeint.py:14-24 | `rk4` returns exactly `arrange(t_start, t_max, h)` as its times and `max(1, len(t))` states. It starts at `y0`, and each state is the RK4 step at `t[i]` from the one before. |
| `FixedStep.AB3States` | odeint.py:33-37 | The AB3 loop keeps the three bootstrap states. Each later state `i` is the AB3 step from states `i-1`, `i-2`, `i-3` at times `t[i]`, `t[i-1]`, `t[i-2]`. |
| `FixedStep.AB3` | odeint.py:28-38 | `adams_bashforth3` returns `arrange(t_start, t_max, h)` as its times. For `h > 0` it returns `max(3, len(t))` states; for `h < 0` it returns no times and only `y0`. The first three states are those of `rk4(f, y0, t_start, t_start + 3h, h)`, and from index 3 on each state is the AB3 step from the three before it. |
| `FixedStep.BootstrapGrid` | odeint.py:29-31 | The bootstrap grid has three points for `h > 0`. For `h < 0` both grids are empty. |
| `FixedStepProperties.EulerStepMatchesReference` | odeint.py:9 | An Euler step succeeds exactly when `f(t, y)` has the length of `y`, and then it is `y + h·f(t, y)`. Otherwise it raises the dimension error. |
| `FixedStepProperties.RK4StepMatchesReference` | odeint.py:18-23 | For a length-preserving `f`, the loop body is the classical RK4 update. `k1` is taken at `t`, `k2` and `k3` at `t + h/2`, and `k4` at `t + h`. The stage states are `y + (h/2)k1`, `y + (h/2)k2` and `y + h·k3`, and the result is `y + (h/6)(k1 + 2k2 + 2k3 + k4)`. |
| `FixedStepProperties.RK4StepOkIff` | odeint.py:18-23 | The `rk4` loop body succeeds exactly when `k1`, `k2`, `k3` and `k4` all have the length of `prev`, each taken at the stage state the one before gives. Otherwise it raises the dimension error. |
| `FixedStepProperties.RK4StepRaises` | odeint.py:19-20 | If `f(t, y)` has the wrong length, the RK4 step raises the dimension error. |
| `FixedStepProperties.AB3StepOkIff` | odeint.py:34-37 | The `adams_bashforth3` loop body succeeds exactly when `k1 = f(t[i], y[-1])`, `k2 = f(t[i-1], y[-2])` and `k3 = f(t[i-2], y[-3])` all have the length of `y[-1]`. Otherwise it raises the dimension error. |
| `FixedStepProperties.AB3StepMatchesReference` | odeint.py:34-37 | For a length-preserving `f`, the loop body appends `y[-1] + h·(23k1 - 16k2 + 5k3)/12`. |
| `FixedStepProperties.StatesKeepLength` | odeint.py:7-9 | A loop whose step keeps the state length never raises, and all its states have the length of `y0`. |
| `FixedStepProperties.EulerKeepsLength` | odeint.py:5-10 | If `f` preserves length, `euler` never raises. Every state keeps `len(y0)`, and each state is the Euler update of the one before. |
| `FixedStepProperties.RK4KeepsLength` | odeint.py:14-24 | If `f` preserves length, `rk4` never raises. Every state keeps `len(y0)`, and each state is the RK4 update of the one before. |
| `FixedStepProperties.AB3KeepsLength` | odeint.py:28-38 | If `f` preserves length, `adams_bashforth3` never raises. Every state keeps `len(y0)`, and from index 3 on each state is the AB3 update of the three before it. |
| `FixedStepProperties.EulerExactForConstant` | odeint.py:8-9 | With a constant derivative `k`, Euler state `i` is exactly `y0 + (i·h)·k`. |
| `FixedStepProperties.RK4ExactForConstant` | odeint.py:17-23 | With a constant derivative `k`, RK4 state `i` is exactly `y0 + (i·h)·k`. |
| `FixedStepProperties.AB3ExactForConstant` | odeint.py:31-37 | With a constant derivative `k`, every `adams_bashforth3` state `i`, bootstrap included, is exactly `y0 + (i·h)·k`. |
| `FixedStepProperties.ZeroDerivativeIsStationary` | odeint.py:5-38 | If `f` returns the zero vector, every state of `euler` and `rk4` is `y0` whenever their grid loop ends, and so is every state of `adams_bashforth3` whenever both of its grid loops end. |
| `FixedStepProperties.ConstantRunLagsOneStep` | odeint.py:6-9 | With a constant derivative, the `euler` and `rk4` state paired with grid time `t[i]` is the exact solution at `t[i] - h`. |
| `FixedStepProperties.EulerRaisesOnBadDerivative` | odeint.py:8-9 | If the grid has a second point and `f(t[1], y0)` has the wrong length, `euler` raises the dimension error. |
| `FixedStepProperties.RK4RaisesOnBadDerivative` | odeint.py:17-20 | If the grid has a second point and `f(t[1], y0)` has the wrong length, `rk4` raises the dimension error. |
| `FixedStepProperties.AB3RaisesOnBadDerivative` | odeint.py:29-31 | For `h > 0`, if `f(t_start + 2h, y0)` has the wrong length, `adams_bashforth3` raises in its RK4 bootstrap, even when its own grid is empty. |
| `FixedStepProperties.StatesRaiseIff` | odeint.py:7-9 | The loop raises exactly when some step `m` raises after the first `m` states were computed. |
| `FixedStepProperties.RaisesFailingStepError` | odeint.py:7-9 | Once step `m` raises, every longer run raises that step's exception. |
| `FixedStepProperties.StatesRaiseOnly` | odeint.py:7-9 | A loop whose step can raise only one kind of exception can itself raise only that kind. |
| `FixedStepProperties.EulerRaisesIff` | odeint.py:5-10 | `euler` raises exactly when some step `m` raises. Such a step has `f(t[m], y[m-1])` of the wrong length, and what `euler` raises is the dimension error. |
| `FixedStepProperties.RK4RaisesIff` | odeint.py:14-24 | `rk4` raises exactly when some step `m` raises after the first `m` states were computed, and what it raises is the dimension error. |
| `FixedStepProperties.RK4FailingStep` | odeint.py:17-23 | Once the first `m` states are computed, step `m` of `rk4` raises exactly when one of its stage derivatives `k1`…`k4` has the wrong length. |
| `FixedStepProperties.AB3StatesRaiseIff` | odeint.py:33-37 | The AB3 loop raises exactly when some AB3 step `m` raises after the first `m` states were computed, and what it raises is the dimension error. |
| `FixedStepProperties.AB3RaisesIff` | odeint.py:28-38 | `adams_bashforth3` raises exactly when its RK4 bootstrap raises or some AB3 step `m` raises after the first `m` states were computed. |
| `FixedStepProperties.AB3FailingStep` | odeint.py:33-37 | Once the first `m` states are computed, AB3 step `m` raises exactly when `k1`, `k2` or `k3` has the wrong length. |
| `FixedStepProperties.AB3RaisesDimensionError` | odeint.py:28-38 | What `adams_bashforth3` raises is always the dimension error. |

## Left out

- Floating-point rounding. Floats are exact reals. The accumulated `current += step` in `arrange` may round differently, and so may the three-point bootstrap grid.
- `Vector.norm`: the square root is not modelled; `SquaredNorm` is the sum of squares under it.
- `rkf` and `rkdp` (odeint.py:42-125). They use a real power `** 0.25`, a square-root error norm against float tolerances, and a step-shrinking recursion with no termination bound.
- equations.py, pendulum.py, double_pendulum.py and animate.py: trigonometric physics, plotting and glue code outside the integrator core.
- `Vector.append`, `__setitem__`, `__getitem__`, `__len__`, `__iter__`, `__str__`, and `Matrix.append`, `__getitem__`, `__len__`, `__str__`: list plumbing and display.
- Object identity. A Vector is a value. Aliasing between distinct Vector objects is left out, beyond the receiver mutation of Matrix `+` and `/`, and so is `y0` being shared by reference with the returned list.
- `Matrices.MatrixRMul`: only a scalar left operand is modelled. `Vector * Matrix` reaches `__rmul__` through a different path that multiplies every component by the matrix.
- `Matrices.MatrixMul`: the Vector case states which exception is raised, not the dot products computed before it.
- `Vectors.Dot`: the contract fixes when it raises and the empty case, not the value. The value is pinned down by `DotSnoc` together with that empty case.
- Python's dynamic typing of operands. Vector operands are real sequences, the integrators' `f` returns a Vector, and `y0` is a Vector.
- Calls of `arrange`, `euler`, `rk4` or `adams_bashforth3` with a step under which the grid loop never ends. They are excluded by precondition.
