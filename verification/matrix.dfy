/** The `Matrix` class of algebra.py: a list of row Vectors. The
    constructor copies every row, so a matrix is modelled as the value of
    its rows. `__add__` and `__truediv__` copy only the list of rows and then
    update those rows in place, so they also change the receiver; they are
    methods that return the receiver's rows after the call next to the
    result. */
module Matrices {
  import opened Outcomes
  import opened Vectors

  type Matrix = seq<Vector>

  /** The right operand of a Matrix operator, by its Python type. */
  datatype Operand = Scalar(k: real) | Vec(v: Vector) | Mat(rows: Matrix)

  /** An element of the list handed to `Matrix(a)`: a number, or an iterable of numbers. */
  datatype Item = Number(x: real) | Items(xs: seq<real>)

  /** `Matrix(a)`: every element is copied into a fresh row Vector; a number
      is not iterable and raises TypeError. */
  function FromItems(a: seq<Item>): (r: Result<Matrix>)
    ensures r.Ok? <==> forall k :: 0 <= k < |a| ==> a[k].Items?
    ensures r.Err? ==> r.error == TypeError
    ensures r.Ok? ==> |r.value| == |a| && forall k :: 0 <= k < |a| ==> r.value[k] == a[k].xs
  {
    if exists k :: 0 <= k < |a| && a[k].Number? then Err(TypeError)
    else Ok(seq(|a|, k requires 0 <= k < |a| => a[k].xs))
  }

  /** The rows of `m` as constructor arguments. */
  function AsItems(m: Matrix): (a: seq<Item>) {
    seq(|m|, k requires 0 <= k < |m| => Items(m[k]))
  }

  /** Copying the rows of a matrix through the constructor gives back the same rows. */
  lemma FromItemsCopiesRows(m: Matrix)
    ensures FromItems(AsItems(m)) == Ok(m)
  {
    assert FromItems(AsItems(m)).value == m;
  }

  /** Every row has `width` components. */
  ghost predicate Rectangular(m: Matrix, width: nat) {
    forall k :: 0 <= k < |m| ==> |m[k]| == width
  }

  ghost predicate SameShape(a: Matrix, b: Matrix) {
    |a| == |b| && forall k :: 0 <= k < |a| ==> |a[k]| == |b[k]|
  }

  /** Cell (i, j) exists in `m`. */
  predicate InShape(m: Matrix, i: int, j: int) {
    0 <= i < |m| && 0 <= j < |m[i]|
  }

  /** Python's `v[i]` accepts `-len(v) <= i < len(v)`; negative indices count from the end. */
  predicate ValidIndex(len: nat, i: int) {
    -(len as int) <= i < len
  }

  function Resolve(len: nat, i: int): (r: nat)
    requires ValidIndex(len, i)
    ensures r < len
    ensures 0 <= i ==> r == i
    ensures i < 0 ==> r + (-i) == len
  {
    if i < 0 then len + i else i
  }

  /** `m.column(i)`: entry k is `m[k][i]`, and any row too short for `i` raises. */
  function Column(m: Matrix, i: int): (r: Result<Vector>)
    ensures r.Ok? <==> forall k :: 0 <= k < |m| ==> ValidIndex(|m[k]|, i)
    ensures r.Err? ==> r.error == IndexError
    ensures r.Ok? ==> |r.value| == |m|
    ensures r.Ok? ==> forall k :: 0 <= k < |m| ==> r.value[k] == m[k][Resolve(|m[k]|, i)]
    ensures 0 <= i ==> (r.Ok? <==> forall k :: 0 <= k < |m| ==> i < |m[k]|)
    ensures r.Ok? && 0 <= i ==> forall k :: 0 <= k < |m| ==> r.value[k] == m[k][i]
  {
    if forall k :: 0 <= k < |m| ==> ValidIndex(|m[k]|, i) then
      Ok(seq(|m|, k requires 0 <= k < |m| && ValidIndex(|m[k]|, i) => m[k][Resolve(|m[k]|, i)]))
    else
      Err(IndexError)
  }

  /** `Matrix([m.column(j) for j in range(width)])`: the matrix whose rows
      are the columns of `m`. */
  function Columns(m: Matrix, width: nat): (c: Matrix)
    requires Rectangular(m, width)
    ensures |c| == width && Rectangular(c, |m|)
    ensures forall j, k :: 0 <= j < width && 0 <= k < |m| ==> c[j][k] == m[k][j]
  {
    seq(width, j requires 0 <= j < width => Column(m, j).value)
  }

  /** Rebuilding a matrix from all the columns of a rectangular matrix, and
      taking the columns again, gives back the original rows. */
  lemma ColumnsRoundTrip(m: Matrix, width: nat)
    requires Rectangular(m, width)
    ensures Columns(Columns(m, width), |m|) == m
  {
    var c := Columns(m, width);
    var back := Columns(c, |m|);
    assert |back| == |m|;
    forall k | 0 <= k < |m|
      ensures back[k] == m[k]
    {
      assert |back[k]| == width == |m[k]|;
      assert forall j :: 0 <= j < width ==> back[k][j] == c[j][k] == m[k][j];
    }
  }

  /** `m - other`: row-wise Vector subtraction when `other` is a Matrix with
      the same number of rows, `None` otherwise; rows of different lengths raise. */
  function MatrixSub(m: Matrix, other: Operand): (r: Result<Option<Matrix>>)
    ensures r == Ok(None) <==> !(other.Mat? && |other.rows| == |m|)
    ensures r.Err? <==> other.Mat? && |other.rows| == |m| && !SameShape(m, other.rows)
    ensures r.Err? ==> r.error == DimensionMismatch
    ensures r.Ok? && r.value.Some? ==>
      SameShape(r.value.value, m)
      && forall i, j :: InShape(m, i, j) ==> r.value.value[i][j] == m[i][j] - other.rows[i][j]
  {
    if !other.Mat? || |other.rows| != |m| then Ok(None)
    else if exists k :: 0 <= k < |m| && |m[k]| != |other.rows[k]| then Err(DimensionMismatch)
    else Ok(Some(seq(|m|, k requires 0 <= k < |m| => Sub(m[k], other.rows[k]).value)))
  }

  /** `m * other`: every row times `other`. A scalar scales the rows; a
      Matrix gives `None`; a Vector turns every row into a dot product,
      which raises IndexError for a row longer than the Vector and otherwise
      TypeError when the numbers are wrapped into Vectors again. */
  function MatrixMul(m: Matrix, other: Operand): (r: Result<Option<Matrix>>)
    ensures other.Mat? ==> r == Ok(None)
    ensures other.Scalar? ==> r.Ok? && r.value.Some?
    ensures other.Scalar? ==>
      SameShape(r.value.value, m)
      && forall i, j :: InShape(m, i, j) ==> r.value.value[i][j] == m[i][j] * other.k
    ensures other.Vec? ==> (r.Ok? <==> |m| == 0)
    ensures other.Vec? && |m| == 0 ==> r == Ok(Some([]))
    ensures other.Vec? && r.Err? ==>
      r.error == (if exists k :: 0 <= k < |m| && |other.v| < |m[k]| then IndexError else TypeError)
  {
    match other
    case Scalar(k) => Ok(Some(seq(|m|, i requires 0 <= i < |m| => Scale(m[i], k))))
    case Mat(_) => Ok(None)
    case Vec(v) =>
      if exists k :: 0 <= k < |m| && |v| < |m[k]| then Err(IndexError)
      else
        var dots := seq(|m|, k requires 0 <= k < |m| && |m[k]| <= |v| => Number(Dot(m[k], v).value));
        assert |m| > 0 ==> dots[0].Number?;
        var rows :- FromItems(dots);
        Ok(Some(rows))
  }

  /** `k * m`: `__rmul__` scales every row, the same as `m * k`. */
  function MatrixRMul(k: real, m: Matrix): (r: Matrix)
    ensures SameShape(r, m)
    ensures forall i, j :: InShape(m, i, j) ==> r[i][j] == k * m[i][j]
    ensures MatrixMul(m, Scalar(k)) == Ok(Some(r))
  {
    seq(|m|, i requires 0 <= i < |m| => Scale(m[i], k))
  }

  /** Row-major order on cells: (i, j) is visited before (i0, j0). */
  predicate Before(i: int, j: int, i0: int, j0: int) {
    i < i0 || (i == i0 && j < j0)
  }

  /** `other.vectors[i][j]` exists, which `Matrix.__add__` reads for cell (i, j). */
  predicate AddendAt(other: Operand, i: int, j: int) {
    other.Mat? && 0 <= i < |other.rows| && 0 <= j < |other.rows[i]|
  }

  /** `rcv` is `m` with every cell visited before (i0, j0) increased by the
      matching cell of `other`, and every later cell untouched. */
  ghost predicate SummedBefore(m: Matrix, other: Operand, rcv: Matrix, i0: int, j0: int) {
    && SameShape(m, rcv)
    && forall i, j :: InShape(m, i, j) ==>
         rcv[i][j] == (if Before(i, j, i0, j0) && AddendAt(other, i, j) then m[i][j] + other.rows[i][j] else m[i][j])
  }

  /** (i0, j0) is the first cell of `m` whose addend is missing. */
  ghost predicate FirstMissingAddend(m: Matrix, other: Operand, i0: int, j0: int) {
    && InShape(m, i0, j0)
    && !AddendAt(other, i0, j0)
    && forall i, j :: InShape(m, i, j) && Before(i, j, i0, j0) ==> AddendAt(other, i, j)
  }

  /** `m + other`. Returns the sum and the receiver's rows after the call:
      on success both are `m` plus `other` cell by cell (extra rows or
      columns of `other` are ignored); on the first cell of `m` that `other`
      lacks it raises, leaving the cells before it already summed. */
  method MatrixAdd(m: Matrix, other: Operand) returns (r: Result<Matrix>, receiver: Matrix)
    ensures r.Ok? <==> forall i, j :: InShape(m, i, j) ==> AddendAt(other, i, j)
    ensures r.Ok? ==> r.value == receiver && SameShape(receiver, m)
    ensures r.Ok? ==> forall i, j :: InShape(m, i, j) ==> receiver[i][j] == m[i][j] + other.rows[i][j]
    ensures r.Ok? && other.Mat? && SameShape(m, other.rows) ==> MatrixSub(receiver, other) == Ok(Some(m))
    ensures r.Err? ==> r.error == (if other.Mat? then IndexError else AttributeError)
    ensures r.Err? ==> exists i0, j0 :: FirstMissingAddend(m, other, i0, j0) && SummedBefore(m, other, receiver, i0, j0)
  {
    receiver := m;
    var i := 0;
    while i < |m|
      invariant 0 <= i <= |m|
      invariant SummedBefore(m, other, receiver, i, 0)
      invariant forall i', j' :: InShape(m, i', j') && i' < i ==> AddendAt(other, i', j')
    {
      var j := 0;
      while j < |m[i]|
        invariant 0 <= j <= |m[i]|
        invariant SummedBefore(m, other, receiver, i, j)
        invariant forall i', j' :: InShape(m, i', j') && Before(i', j', i, j) ==> AddendAt(other, i', j')
      {
        if !AddendAt(other, i, j) {
          assert FirstMissingAddend(m, other, i, j);
          r := Err(if other.Mat? then IndexError else AttributeError);
          return;
        }
        receiver := receiver[i := receiver[i][j := receiver[i][j] + other.rows[i][j]]];
        j := j + 1;
      }
      i := i + 1;
    }
    r := Ok(receiver);
    if other.Mat? && SameShape(m, other.rows) {
      SubUndoesAdd(m, other.rows, receiver);
    }
  }

  /** Subtracting the addend from a cell-by-cell sum gives back the first operand. */
  lemma SubUndoesAdd(m: Matrix, o: Matrix, s: Matrix)
    requires SameShape(m, o) && SameShape(m, s)
    requires forall i, j :: InShape(m, i, j) ==> s[i][j] == m[i][j] + o[i][j]
    ensures MatrixSub(s, Mat(o)) == Ok(Some(m))
  {
    assert SameShape(s, o);
    var r := MatrixSub(s, Mat(o));
    assert r.Ok? && r.value.Some?;
    var d := r.value.value;
    forall k | 0 <= k < |m|
      ensures d[k] == m[k]
    {
      assert forall j :: 0 <= j < |m[k]| ==> d[k][j] == m[k][j];
    }
    assert d == m;
  }

  /** Row i of the receiver can be divided: `other[i]` exists and is non-zero. */
  predicate DivisorAt(v: Vector, i: int) {
    0 <= i < |v| && v[i] != 0.0
  }

  /** `rcv` is `m` with every cell visited before (i0, j0) divided by its row's divisor. */
  ghost predicate DividedBefore(m: Matrix, v: Vector, rcv: Matrix, i0: int, j0: int) {
    && SameShape(m, rcv)
    && forall i, j :: InShape(m, i, j) ==>
         rcv[i][j] == (if Before(i, j, i0, j0) && DivisorAt(v, i) then m[i][j] / v[i] else m[i][j])
  }

  /** Row i0 is the first non-empty row of `m` without a usable divisor. */
  ghost predicate FirstBadDivisor(m: Matrix, v: Vector, i0: int) {
    && 0 <= i0 < |m| && |m[i0]| > 0
    && !DivisorAt(v, i0)
    && forall i :: 0 <= i < i0 && |m[i]| > 0 ==> DivisorAt(v, i)
  }

  /** `m / other`. Anything but a Vector gives `None` and changes nothing.
      For a Vector, every entry of row i is divided by `other[i]` (row-indexed,
      and with no zero sentinel); the receiver's rows change too. The first
      non-empty row whose divisor is missing raises IndexError, or
      ZeroDivisionError when it is zero, leaving the rows before it divided. */
  method MatrixDiv(m: Matrix, other: Operand) returns (r: Result<Option<Matrix>>, receiver: Matrix)
    ensures !other.Vec? ==> r == Ok(None) && receiver == m
    ensures other.Vec? ==> (r.Ok? <==> forall i :: 0 <= i < |m| && |m[i]| > 0 ==> DivisorAt(other.v, i))
    ensures other.Vec? && r.Ok? ==> r.value == Some(receiver) && SameShape(receiver, m)
    ensures other.Vec? && r.Ok? ==> forall i, j :: InShape(m, i, j) ==> receiver[i][j] * other.v[i] == m[i][j]
    ensures r.Err? ==> other.Vec? && exists i0 ::
      && FirstBadDivisor(m, other.v, i0)
      && DividedBefore(m, other.v, receiver, i0, 0)
      && r.error == (if i0 < |other.v| then ZeroDivisionError else IndexError)
  {
    receiver := m;
    if !other.Vec? {
      return Ok(None), receiver;
    }
    var v := other.v;
    var i := 0;
    while i < |m|
      invariant 0 <= i <= |m|
      invariant DividedBefore(m, v, receiver, i, 0)
      invariant forall i' :: 0 <= i' < i && |m[i']| > 0 ==> DivisorAt(v, i')
    {
      var j := 0;
      while j < |m[i]|
        invariant 0 <= j <= |m[i]|
        invariant DividedBefore(m, v, receiver, i, j)
        invariant j > 0 ==> DivisorAt(v, i)
      {
        if i >= |v| {
          assert FirstBadDivisor(m, v, i);
          return Err(IndexError), receiver;
        }
        if v[i] == 0.0 {
          assert FirstBadDivisor(m, v, i);
          return Err(ZeroDivisionError), receiver;
        }
        receiver := receiver[i := receiver[i][j := receiver[i][j] / v[i]]];
        j := j + 1;
      }
      i := i + 1;
    }
    r := Ok(Some(receiver));
  }
}
