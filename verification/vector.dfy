/** The `Vector` class of algebra.py: a list of reals with Python's
    arithmetic operators. Floats are modelled as exact reals. An operator
    that raises returns `Err`; the others are pure functions. */
module Vectors {
  import opened Outcomes

  type Vector = seq<real>

  /** The value `-(10**10)` that `Vector / Vector` writes where the divisor is zero. */
  const ZeroDivisorSentinel: real := -10000000000.0

  /** `a + b` for an iterable `b`: component-wise, and it raises when the lengths differ. */
  function Add(a: Vector, b: Vector): (r: Result<Vector>)
    ensures r.Ok? <==> |a| == |b|
    ensures r.Err? ==> r.error == DimensionMismatch
    ensures r.Ok? ==> |r.value| == |a| && forall i :: 0 <= i < |a| ==> r.value[i] == a[i] + b[i]
  {
    if |a| != |b| then Err(DimensionMismatch)
    else Ok(seq(|a|, i requires 0 <= i < |a| => a[i] + b[i]))
  }

  /** `a + k` for a non-iterable `k`: the scalar is added to every component. */
  function AddScalar(a: Vector, k: real): (r: Vector)
    ensures |r| == |a|
    ensures forall i :: 0 <= i < |a| ==> r[i] == a[i] + k
  {
    seq(|a|, i requires 0 <= i < |a| => a[i] + k)
  }

  /** `a - b`: component-wise, and it raises when the lengths differ. */
  function Sub(a: Vector, b: Vector): (r: Result<Vector>)
    ensures r.Ok? <==> |a| == |b|
    ensures r.Err? ==> r.error == DimensionMismatch
    ensures r.Ok? ==> |r.value| == |a| && forall i :: 0 <= i < |a| ==> r.value[i] == a[i] - b[i]
  {
    if |a| != |b| then Err(DimensionMismatch)
    else Ok(seq(|a|, i requires 0 <= i < |a| => a[i] - b[i]))
  }

  /** `a * k` for a scalar `k`. */
  function Scale(a: Vector, k: real): (r: Vector)
    ensures |r| == |a|
    ensures forall i :: 0 <= i < |a| ==> r[i] == a[i] * k
  {
    seq(|a|, i requires 0 <= i < |a| => a[i] * k)
  }

  /** `k * a`: `__rmul__` delegates to `__mul__`, so this is `a * k`,
      and it equals the mathematical product `k·a`. */
  function ScaleLeft(k: real, a: Vector): (r: Vector)
    ensures |r| == |a|
    ensures forall i :: 0 <= i < |a| ==> r[i] == k * a[i]
  {
    Scale(a, k)
  }

  /** The sum of `a[i] * b[i]` over the indices of `a`. */
  function SumOfProducts(a: Vector, b: Vector): real
    requires |a| <= |b|
  {
    if |a| == 0 then 0.0 else a[0] * b[0] + SumOfProducts(a[1..], b[1..])
  }

  /** `a * b` for a Vector `b`: the dot product over `a`'s indices. There is
      no length check: a shorter `b` raises IndexError, a longer one has its
      extra components ignored. */
  function Dot(a: Vector, b: Vector): (r: Result<real>)
    ensures r.Ok? <==> |a| <= |b|
    ensures r.Err? ==> r.error == IndexError
    ensures |a| == 0 ==> r == Ok(0.0)
  {
    if |b| < |a| then Err(IndexError) else Ok(SumOfProducts(a, b))
  }

  /** `a / k` for a scalar `k`: `a * (1 / k)`, which raises when `k` is zero. */
  function DivScalar(a: Vector, k: real): (r: Result<Vector>)
    ensures r.Ok? <==> k != 0.0
    ensures r.Err? ==> r.error == ZeroDivisionError
    ensures r.Ok? ==> |r.value| == |a| && forall i :: 0 <= i < |a| ==> r.value[i] * k == a[i]
  {
    if k == 0.0 then Err(ZeroDivisionError) else Ok(Scale(a, 1.0 / k))
  }

  /** `a / b` for a Vector `b`: the component-wise quotient over `a`'s
      indices, with the sentinel wherever the divisor is zero. A shorter `b`
      raises IndexError. */
  function DivVec(a: Vector, b: Vector): (r: Result<Vector>)
    ensures r.Ok? <==> |a| <= |b|
    ensures r.Err? ==> r.error == IndexError
    ensures r.Ok? ==> |r.value| == |a|
    ensures r.Ok? ==> forall i :: 0 <= i < |a| && b[i] != 0.0 ==> r.value[i] * b[i] == a[i]
    ensures r.Ok? ==> forall i :: 0 <= i < |a| && b[i] == 0.0 ==> r.value[i] == ZeroDivisorSentinel
  {
    if |b| < |a| then Err(IndexError)
    else Ok(seq(|a|, i requires 0 <= i < |a| => if b[i] != 0.0 then a[i] / b[i] else ZeroDivisorSentinel))
  }

  /** `a.abs()`: the component-wise absolute value. */
  function Abs(a: Vector): (r: Vector)
    ensures |r| == |a|
    ensures forall i :: 0 <= i < |a| ==> r[i] >= 0.0 && (r[i] == a[i] || r[i] == -a[i])
  {
    seq(|a|, i requires 0 <= i < |a| => if a[i] < 0.0 then -a[i] else a[i])
  }

  /** The sum of squares under the square root of `a.norm()`. */
  function SquaredNorm(a: Vector): (r: real)
    ensures r >= 0.0
  {
    if |a| == 0 then 0.0 else a[0] * a[0] + SquaredNorm(a[1..])
  }

  /** The squared norm is zero exactly when every component is zero. */
  lemma {:induction false} SquaredNormZeroIff(a: Vector)
    ensures SquaredNorm(a) == 0.0 <==> forall i :: 0 <= i < |a| ==> a[i] == 0.0
    decreases |a|
  {
    if |a| > 0 {
      var rest := a[1..];
      SquaredNormZeroIff(rest);
      assert forall i :: 1 <= i < |a| ==> a[i] == rest[i - 1];
      if SquaredNorm(a) == 0.0 {
        assert a[0] * a[0] == 0.0;
        ZeroProduct(a[0], a[0]);
      } else if a[0] == 0.0 {
        assert a[0] * a[0] == 0.0;
      }
    }
  }

  lemma ZeroProduct(x: real, y: real)
    requires x * y == 0.0
    ensures x == 0.0 || y == 0.0
  {
  }

  /** `(a + b) - b == a`: subtraction undoes addition. */
  lemma {:induction false} AddSubCancel(a: Vector, b: Vector)
    requires |a| == |b|
    ensures Add(a, b).Ok? && Sub(Add(a, b).value, b) == Ok(a)
  {
    var s := Add(a, b).value;
    assert Sub(s, b).value == a;
  }

  /** Adding `k` and then `-k` to every component gives back the vector. */
  lemma AddScalarUndo(a: Vector, k: real)
    ensures AddScalar(AddScalar(a, k), -k) == a
  {
  }

  /** Dividing by a non-zero scalar undoes scaling by it: `(a * k) / k == a`. */
  lemma ScaleDivRoundTrip(a: Vector, k: real)
    requires k != 0.0
    ensures DivScalar(Scale(a, k), k) == Ok(a)
  {
    var b := DivScalar(Scale(a, k), k).value;
    forall i | 0 <= i < |a|
      ensures b[i] == a[i]
    {
      assert b[i] * k == a[i] * k;
      CancelNonZero(b[i], a[i], k);
    }
    assert b == a;
  }

  lemma CancelNonZero(x: real, y: real, k: real)
    requires k != 0.0 && x * k == y * k
    ensures x == y
  {
  }

  /** The dot product of equal-length vectors does not depend on operand order. */
  lemma {:induction false} DotSymmetric(a: Vector, b: Vector)
    requires |a| == |b|
    ensures Dot(a, b) == Dot(b, a)
  {
    SumOfProductsSymmetric(a, b);
  }

  lemma {:induction false} SumOfProductsSymmetric(a: Vector, b: Vector)
    requires |a| == |b|
    ensures SumOfProducts(a, b) == SumOfProducts(b, a)
    decreases |a|
  {
    if |a| > 0 {
      SumOfProductsSymmetric(a[1..], b[1..]);
    }
  }

  /** Components of `b` past the end of `a` do not take part in `a * b`. */
  lemma DotIgnoresExtraComponents(a: Vector, b: Vector)
    requires |a| <= |b|
    ensures Dot(a, b) == Dot(a, b[..|a|])
  {
    SumOfProductsPrefix(a, b);
  }

  lemma {:induction false} SumOfProductsPrefix(a: Vector, b: Vector)
    requires |a| <= |b|
    ensures SumOfProducts(a, b) == SumOfProducts(a, b[..|a|])
    decreases |a|
  {
    if |a| > 0 {
      SumOfProductsPrefix(a[1..], b[1..]);
      assert b[..|a|][1..] == b[1..][..|a| - 1];
      assert b[..|a|][0] == b[0];
    }
  }

  /** Extending `a` by one component `x` adds `x * b[|a|]` to `a * b`: the
      comprehension sums `a[i] * b[i]` for every index `i` of `a`. With the
      empty case of `Dot`'s contract this determines the value of `a * b`. */
  lemma DotSnoc(a: Vector, x: real, b: Vector)
    requires |a| < |b|
    ensures Dot(a + [x], b) == Ok(Dot(a, b).value + x * b[|a|])
  {
    SumOfProductsSnoc(a, x, b);
  }

  lemma {:induction false} SumOfProductsSnoc(a: Vector, x: real, b: Vector)
    requires |a| < |b|
    ensures SumOfProducts(a + [x], b) == SumOfProducts(a, b) + x * b[|a|]
    decreases |a|
  {
    if |a| > 0 {
      SumOfProductsSnoc(a[1..], x, b[1..]);
      assert (a + [x])[1..] == a[1..] + [x];
    }
  }

  /** `a * a` is the sum of squares under `a.norm()`. */
  lemma {:induction false} DotSelfIsSquaredNorm(a: Vector)
    ensures Dot(a, a) == Ok(SquaredNorm(a))
    decreases |a|
  {
    if |a| > 0 {
      DotSelfIsSquaredNorm(a[1..]);
    }
  }

  /** Taking `abs()` first does not change the norm, as in `(y1 - y2).abs().norm()`. */
  lemma {:induction false} AbsKeepsSquaredNorm(a: Vector)
    ensures SquaredNorm(Abs(a)) == SquaredNorm(a)
    decreases |a|
  {
    if |a| > 0 {
      var b := Abs(a);
      AbsKeepsSquaredNorm(a[1..]);
      assert b[1..] == Abs(a[1..]);
      SquareOfAbs(a[0], b[0]);
      assert SquaredNorm(b) == b[0] * b[0] + SquaredNorm(b[1..]);
    }
  }

  lemma SquareOfAbs(x: real, y: real)
    requires y == x || y == -x
    ensures y * y == x * x
  {
  }

  /** The worked example: `Vector([1, 2]) / Vector([0, 5]) == [-1e10, 0.4]`. */
  lemma DivVecSentinelExample()
    ensures DivVec([1.0, 2.0], [0.0, 5.0]) == Ok([ZeroDivisorSentinel, 0.4])
  {
    var r := DivVec([1.0, 2.0], [0.0, 5.0]).value;
    assert |r| == 2;
    assert r[0] == ZeroDivisorSentinel;
    assert r[1] * 5.0 == 2.0;
    assert r[1] == 0.4;
    assert r == [ZeroDivisorSentinel, 0.4];
  }
}
