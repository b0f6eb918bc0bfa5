/** The integer pipeline that turns the real-valued instance x attribute
    matrix read from the input into attribute-major unsigned-char codes
    (`transpose_and_discretize` of include/dataset.hpp, and the same code
    inline in the stream constructor of dataset.hpp): rounding, the overflow
    check, per-attribute minima and maxima that start at 0, the range check,
    and the translation by the minimum in wrap-around unsigned-char
    arithmetic. */
module Discretization {
  import opened Wrappers
  import Matrix
  import AttributeInformation

  /** `discretization_method`; `Unrecognized` is any other value of the
      underlying char. */
  datatype Method = Round | Floor | Ceiling | Truncate | Unrecognized

  /** `std::floor`, `std::ceil`, `std::trunc` and `std::round` (halfway cases
      away from zero), each followed by the cast to `long`. */
  function FloorOf(x: real): int { x.Floor }

  function CeilingOf(x: real): int { -((-x).Floor) }

  function TruncateOf(x: real): int {
    if x >= 0.0 then x.Floor else -((-x).Floor)
  }

  function RoundOf(x: real): int {
    if x >= 0.0 then (x + 0.5).Floor else -((-x + 0.5).Floor)
  }

  function Discretized(dm: Method, x: real): int
    requires dm != Unrecognized
  {
    match dm
    case Round => RoundOf(x)
    case Floor => FloorOf(x)
    case Ceiling => CeilingOf(x)
    case Truncate => TruncateOf(x)
  }

  /** Each method rounds in its own direction, by less than 1, and leaves
      integers unchanged. */
  lemma RoundingBounds(dm: Method, x: real, k: int)
    requires dm != Unrecognized
    ensures FloorOf(x) as real <= x < FloorOf(x) as real + 1.0
    ensures CeilingOf(x) as real - 1.0 < x <= CeilingOf(x) as real
    ensures (x >= 0.0 ==> TruncateOf(x) == FloorOf(x)) && (x < 0.0 ==> TruncateOf(x) == CeilingOf(x))
    ensures RoundOf(x) as real - 0.5 <= x <= RoundOf(x) as real + 0.5
    ensures x - FloorOf(x) as real == 0.5 ==> RoundOf(x) == (if x >= 0.0 then FloorOf(x) + 1 else FloorOf(x))
    ensures Discretized(dm, k as real) == k
  {
  }

  /** `std::numeric_limits<unsigned char>::max()`. */
  const CodeMax: nat := AttributeInformation.CodeMax

  /** `static_cast<unsigned char>`: reduction modulo 256. */
  function Wrap(x: int): nat {
    x % (CodeMax + 1)
  }

  function Abs(x: int): nat {
    if x < 0 then -x else x
  }

  function Min(x: int, y: int): int { if x <= y then x else y }

  function Max(x: int, y: int): int { if x >= y then x else y }

  datatype DiscretizeError =
    | /** "integer overflow detected at line L column C" and exit 2. */
      Overflow(line: nat, column: nat)
    | /** `temp(i, a)` past the last data column: the assert in `operator()`. */
      TooFewColumns
    | /** "attribute 'A' cannot be represented within 255 buckets" and exit 2. */
      Unrepresentable(attribute: string)

  // ---------------------------------------------------------------------
  // Specification
  // ---------------------------------------------------------------------

  /** `val` for instance i and attribute a. */
  function Val(temp: Matrix.Matrix<real>, dm: Method, i: nat, a: nat): int
    requires temp.Valid() && dm != Unrecognized && i < temp.rows && a < temp.cols
  {
    Discretized(dm, Matrix.At(temp, i, a))
  }

  /** The discretizing loops visit instance i, attribute a in row-major
      order and stop at the first cell they cannot read or whose value does
      not fit: this is the first such fault from (i, a) on. */
  function FaultFrom(temp: Matrix.Matrix<real>, attrs: nat, dm: Method, i: nat, a: nat): (f: Option<DiscretizeError>)
    requires temp.Valid() && dm != Unrecognized && i <= temp.rows && a <= attrs
    ensures f.Some? ==> !f.value.Unrepresentable?
    decreases temp.rows - i, attrs - a
  {
    if i == temp.rows then None
    else if a == attrs then FaultFrom(temp, attrs, dm, i + 1, 0)
    else if a >= temp.cols then Some(TooFewColumns)
    else if Abs(Val(temp, dm, i, a)) > CodeMax then Some(Overflow(i + 2, a + 1))
    else FaultFrom(temp, attrs, dm, i, a + 1)
  }

  /** The loops can read every cell they visit. */
  ghost predicate Readable(temp: Matrix.Matrix<real>, attrs: nat, dm: Method) {
    dm == Unrecognized || temp.rows == 0 || attrs <= temp.cols
  }

  /** `minima[a]` after the first n instances: 0 if no value is below 0. An
      unrecognized method never enters the loops. */
  function ColMin(temp: Matrix.Matrix<real>, dm: Method, a: nat, n: nat): int
    requires temp.Valid() && n <= temp.rows && (n == 0 || dm == Unrecognized || a < temp.cols)
  {
    if n == 0 || dm == Unrecognized then 0
    else Min(ColMin(temp, dm, a, n - 1), Val(temp, dm, n - 1, a))
  }

  /** `maxima[a]` after the first n instances: 0 if no value is above 0. */
  function ColMax(temp: Matrix.Matrix<real>, dm: Method, a: nat, n: nat): int
    requires temp.Valid() && n <= temp.rows && (n == 0 || dm == Unrecognized || a < temp.cols)
  {
    if n == 0 || dm == Unrecognized then 0
    else Max(ColMax(temp, dm, a, n - 1), Val(temp, dm, n - 1, a))
  }

  /** The first attribute from a on whose range exceeds 255 buckets. */
  function FirstUnrepresentable(temp: Matrix.Matrix<real>, names: seq<string>, dm: Method, a: nat): (f: Option<DiscretizeError>)
    requires temp.Valid() && Readable(temp, |names|, dm) && a <= |names|
    ensures f.Some? ==> f.value.Unrepresentable?
    decreases |names| - a
  {
    if a == |names| then None
    else if ColMax(temp, dm, a, temp.rows) - ColMin(temp, dm, a, temp.rows) > CodeMax then
      Some(Unrepresentable(names[a]))
    else FirstUnrepresentable(temp, names, dm, a + 1)
  }

  /** `_data(a, i) = static_cast<T>(val)`; cells stay value-initialised when
      the method is unrecognized. */
  function Stored(temp: Matrix.Matrix<real>, dm: Method, i: nat, a: nat): nat
    requires temp.Valid() && i < temp.rows && (dm == Unrecognized || a < temp.cols)
  {
    if dm == Unrecognized then 0 else Wrap(Val(temp, dm, i, a))
  }

  /** `_data(a, i) += static_cast<T>(-minima[a])`, in unsigned-char
      arithmetic. */
  function Code(temp: Matrix.Matrix<real>, attrs: nat, dm: Method, a: nat, i: nat): nat
    requires temp.Valid() && Readable(temp, attrs, dm) && a < attrs && i < temp.rows
  {
    Wrap(Stored(temp, dm, i, a) + Wrap(-ColMin(temp, dm, a, temp.rows)))
  }

  function CodeCell(temp: Matrix.Matrix<real>, attrs: nat, dm: Method, k: nat): nat
    requires temp.Valid() && Readable(temp, attrs, dm) && k < attrs * temp.rows
  {
    Matrix.FlatCell(k, attrs, temp.rows);
    Code(temp, attrs, dm, k / temp.rows, k % temp.rows)
  }

  /** The attribute-major code matrix: attrs rows of temp.rows codes. */
  function Codes(temp: Matrix.Matrix<real>, attrs: nat, dm: Method): (m: Matrix.Matrix<nat>)
    requires temp.Valid() && Readable(temp, attrs, dm)
    ensures m.Valid() && m.rows == attrs && m.cols == temp.rows
  {
    Matrix.Matrix(attrs, temp.rows,
      seq(attrs * temp.rows, k requires 0 <= k < attrs * temp.rows => CodeCell(temp, attrs, dm, k)))
  }

  /** Cell (i, b) exists and its value fits in 255 buckets either side of 0. */
  ghost predicate Fits(temp: Matrix.Matrix<real>, dm: Method, i: nat, b: nat)
    requires temp.Valid() && dm != Unrecognized && i < temp.rows
  {
    b < temp.cols && Abs(Val(temp, dm, i, b)) <= CodeMax
  }

  /** A fault-free scan from (i, a) checked attributes a.. of row i and
      goes on fault-free into the next row. */
  lemma {:induction false} NoFaultRow(temp: Matrix.Matrix<real>, attrs: nat, dm: Method, i: nat, a: nat)
    requires temp.Valid() && dm != Unrecognized && i < temp.rows && a <= attrs
    requires FaultFrom(temp, attrs, dm, i, a) == None
    ensures FaultFrom(temp, attrs, dm, i + 1, 0) == None
    ensures forall b :: a <= b < attrs ==> Fits(temp, dm, i, b)
    decreases attrs - a
  {
    if a < attrs {
      assert Fits(temp, dm, i, a);
      NoFaultRow(temp, attrs, dm, i, a + 1);
    }
  }

  /** A fault-free scan from row i reads only cells that exist and fit. */
  lemma {:induction false} NoFaultRows(temp: Matrix.Matrix<real>, attrs: nat, dm: Method, i: nat)
    requires temp.Valid() && dm != Unrecognized && i <= temp.rows
    requires FaultFrom(temp, attrs, dm, i, 0) == None
    ensures i < temp.rows ==> attrs <= temp.cols
    ensures forall j, b :: i <= j < temp.rows && 0 <= b < attrs ==> Fits(temp, dm, j, b)
    decreases temp.rows - i
  {
    if i < temp.rows {
      NoFaultRow(temp, attrs, dm, i, 0);
      NoFaultRows(temp, attrs, dm, i + 1);
      if attrs > 0 {
        assert Fits(temp, dm, i, attrs - 1);
      }
    }
  }

  lemma NoFaultReadable(temp: Matrix.Matrix<real>, attrs: nat, dm: Method)
    requires temp.Valid() && (dm == Unrecognized || FaultFrom(temp, attrs, dm, 0, 0) == None)
    ensures Readable(temp, attrs, dm)
  {
    if dm != Unrecognized {
      NoFaultRows(temp, attrs, dm, 0);
    }
  }

  /** The outcome of `transpose_and_discretize(temp, dm)` for a dataset with
      the given attribute names. */
  function DiscretizeSpec(temp: Matrix.Matrix<real>, names: seq<string>, dm: Method): Result<Matrix.Matrix<nat>, DiscretizeError>
    requires temp.Valid()
  {
    var fault := if dm == Unrecognized then None else FaultFrom(temp, |names|, dm, 0, 0);
    if fault.Some? then Err(fault.value)
    else
      NoFaultReadable(temp, |names|, dm);
      var range := FirstUnrepresentable(temp, names, dm, 0);
      if range.Some? then Err(range.value)
      else Ok(Codes(temp, |names|, dm))
  }

  // ---------------------------------------------------------------------
  // transpose_and_discretize (include/dataset.hpp:69-134)
  // ---------------------------------------------------------------------

  /** Instance j, attribute b comes before the cursor (i, a) of the
      row-major scan. */
  predicate Before(j: nat, b: nat, i: nat, a: nat) {
    j < i || (j == i && b < a)
  }

  /** Every flat position of an attrs x n buffer is the address of one cell. */
  lemma FlatCells(attrs: nat, n: nat)
    ensures forall k :: 0 <= k < attrs * n ==>
      k / n < attrs && k % n < n && (k / n) * n + k % n == k
  {
    forall k | 0 <= k < attrs * n
      ensures k / n < attrs && k % n < n && (k / n) * n + k % n == k
    {
      Matrix.FlatCell(k, attrs, n);
    }
  }

  /** One pass of the inner discretizing loop over instance i
      (include/dataset.hpp:83-113): each attribute's value is rounded,
      checked for overflow, folded into the minimum and maximum and stored at
      `_data(a, i)`. */
  method DiscretizeRow(temp: Matrix.Matrix<real>, attrs: nat, dm: Method, i: nat,
                       data: array2<nat>, minima: array<int>, maxima: array<int>)
    returns (fault: Option<DiscretizeError>)
    requires temp.Valid() && dm != Unrecognized && i < temp.rows
    requires i > 0 ==> attrs <= temp.cols
    requires data.Length0 == attrs && data.Length1 == temp.rows
    requires minima.Length == attrs && maxima.Length == attrs && minima != maxima
    requires forall b :: 0 <= b < attrs ==>
      minima[b] == ColMin(temp, dm, b, i) && maxima[b] == ColMax(temp, dm, b, i)
    requires forall b, j :: 0 <= b < attrs && 0 <= j < temp.rows ==>
      data[b, j] == if j < i then Stored(temp, dm, j, b) else 0
    modifies data, minima, maxima
    ensures fault == None ==> FaultFrom(temp, attrs, dm, i, 0) == FaultFrom(temp, attrs, dm, i + 1, 0)
    ensures fault != None ==> fault == FaultFrom(temp, attrs, dm, i, 0)
    ensures fault == None ==> attrs <= temp.cols
    ensures fault == None ==> forall b :: 0 <= b < attrs ==>
      minima[b] == ColMin(temp, dm, b, i + 1) && maxima[b] == ColMax(temp, dm, b, i + 1)
    ensures fault == None ==> forall b, j :: 0 <= b < attrs && 0 <= j < temp.rows ==>
      data[b, j] == if j < i + 1 then Stored(temp, dm, j, b) else 0
  {
    var a := 0;
    while a < attrs
      invariant 0 <= a <= attrs && a <= temp.cols
      invariant FaultFrom(temp, attrs, dm, i, 0) == FaultFrom(temp, attrs, dm, i, a)
      invariant forall b :: 0 <= b < a ==>
        minima[b] == ColMin(temp, dm, b, i + 1) && maxima[b] == ColMax(temp, dm, b, i + 1)
      invariant forall b :: a <= b < attrs ==>
        minima[b] == ColMin(temp, dm, b, i) && maxima[b] == ColMax(temp, dm, b, i)
      invariant forall b, j :: 0 <= b < attrs && 0 <= j < temp.rows ==>
        data[b, j] == if Before(j, b, i, a) then Stored(temp, dm, j, b) else 0
    {
      fault := DiscretizeCell(temp, attrs, dm, i, a, data, minima, maxima);
      if fault != None {
        return;
      }
      a := a + 1;
    }
    return None;
  }

  /** The body of the inner loop for attribute a of instance i
      (include/dataset.hpp:84-112): only `minima[a]`, `maxima[a]` and
      `_data(a, i)` change. */
  method DiscretizeCell(temp: Matrix.Matrix<real>, attrs: nat, dm: Method, i: nat, a: nat,
                        data: array2<nat>, minima: array<int>, maxima: array<int>)
    returns (fault: Option<DiscretizeError>)
    requires temp.Valid() && dm != Unrecognized && i < temp.rows && a < attrs
    requires i > 0 ==> attrs <= temp.cols
    requires data.Length0 == attrs && data.Length1 == temp.rows
    requires minima.Length == attrs && maxima.Length == attrs && minima != maxima
    requires minima[a] == ColMin(temp, dm, a, i) && maxima[a] == ColMax(temp, dm, a, i)
    modifies data, minima, maxima
    ensures fault == None ==> a < temp.cols && FaultFrom(temp, attrs, dm, i, a) == FaultFrom(temp, attrs, dm, i, a + 1)
    ensures fault != None ==> fault == FaultFrom(temp, attrs, dm, i, a)
    ensures fault == None ==> minima[a] == ColMin(temp, dm, a, i + 1) && maxima[a] == ColMax(temp, dm, a, i + 1)
    ensures fault == None ==> data[a, i] == Stored(temp, dm, i, a)
    ensures forall b :: 0 <= b < attrs && b != a ==> minima[b] == old(minima[b]) && maxima[b] == old(maxima[b])
    ensures forall b, j :: 0 <= b < attrs && 0 <= j < temp.rows && (b != a || j != i) ==> data[b, j] == old(data[b, j])
  {
    if a >= temp.cols {
      return Some(TooFewColumns);
    }
    var val := Discretized(dm, Matrix.At(temp, i, a));
    if Abs(val) > CodeMax {
      return Some(Overflow(i + 2, a + 1));
    }
    if val < minima[a] {
      minima[a] := val;
    }
    if val > maxima[a] {
      maxima[a] := val;
    }
    data[a, i] := Wrap(val);
    return None;
  }

  /** The discretizing loops (include/dataset.hpp:79-115). */
  method DiscretizeCells(temp: Matrix.Matrix<real>, attrs: nat, dm: Method,
                         data: array2<nat>, minima: array<int>, maxima: array<int>)
    returns (fault: Option<DiscretizeError>)
    requires temp.Valid() && dm != Unrecognized
    requires data.Length0 == attrs && data.Length1 == temp.rows
    requires minima.Length == attrs && maxima.Length == attrs && minima != maxima
    requires forall b :: 0 <= b < attrs ==> minima[b] == 0 && maxima[b] == 0
    requires forall b, j :: 0 <= b < attrs && 0 <= j < temp.rows ==> data[b, j] == 0
    modifies data, minima, maxima
    ensures fault == FaultFrom(temp, attrs, dm, 0, 0)
    ensures fault == None ==> Readable(temp, attrs, dm)
    ensures fault == None ==> forall b :: 0 <= b < attrs ==>
      minima[b] == ColMin(temp, dm, b, temp.rows) && maxima[b] == ColMax(temp, dm, b, temp.rows)
    ensures fault == None ==> forall b, j :: 0 <= b < attrs && 0 <= j < temp.rows ==>
      data[b, j] == Stored(temp, dm, j, b)
  {
    var i := 0;
    while i < temp.rows
      invariant 0 <= i <= temp.rows
      invariant FaultFrom(temp, attrs, dm, 0, 0) == FaultFrom(temp, attrs, dm, i, 0)
      invariant i > 0 ==> attrs <= temp.cols
      invariant forall b :: 0 <= b < attrs ==>
        minima[b] == ColMin(temp, dm, b, i) && maxima[b] == ColMax(temp, dm, b, i)
      invariant forall b, j :: 0 <= b < attrs && 0 <= j < temp.rows ==>
        data[b, j] == if j < i then Stored(temp, dm, j, b) else 0
    {
      fault := DiscretizeRow(temp, attrs, dm, i, data, minima, maxima);
      if fault != None {
        return;
      }
      i := i + 1;
    }
    return None;
  }

  /** The range check (include/dataset.hpp:118-123). */
  method CheckRanges(temp: Matrix.Matrix<real>, names: seq<string>, dm: Method,
                     minima: array<int>, maxima: array<int>)
    returns (fault: Option<DiscretizeError>)
    requires temp.Valid() && Readable(temp, |names|, dm)
    requires minima.Length == |names| && maxima.Length == |names|
    requires forall b :: 0 <= b < |names| ==>
      minima[b] == ColMin(temp, dm, b, temp.rows) && maxima[b] == ColMax(temp, dm, b, temp.rows)
    ensures fault == FirstUnrepresentable(temp, names, dm, 0)
  {
    var a := 0;
    while a < |names|
      invariant 0 <= a <= |names|
      invariant FirstUnrepresentable(temp, names, dm, 0) == FirstUnrepresentable(temp, names, dm, a)
    {
      if maxima[a] - minima[a] > CodeMax {
        return Some(Unrepresentable(names[a]));
      }
      a := a + 1;
    }
    return None;
  }

  /** The translation of attribute a by `static_cast<T>(-minima[a])`
      (include/dataset.hpp:128-131). */
  method TranslateAttribute(temp: Matrix.Matrix<real>, attrs: nat, dm: Method, a: nat,
                            data: array2<nat>, minimum: int)
    requires temp.Valid() && Readable(temp, attrs, dm) && a < attrs
    requires minimum == ColMin(temp, dm, a, temp.rows)
    requires data.Length0 == attrs && data.Length1 == temp.rows
    requires forall b, j :: 0 <= b < attrs && 0 <= j < temp.rows ==>
      data[b, j] == if b < a then Code(temp, attrs, dm, b, j) else Stored(temp, dm, j, b)
    modifies data
    ensures forall b, j :: 0 <= b < attrs && 0 <= j < temp.rows ==>
      data[b, j] == if b < a + 1 then Code(temp, attrs, dm, b, j) else Stored(temp, dm, j, b)
  {
    var translation := Wrap(-minimum);
    var i := 0;
    while i < temp.rows
      invariant 0 <= i <= temp.rows
      invariant forall b, j :: 0 <= b < attrs && 0 <= j < temp.rows ==>
        data[b, j] == if Before(b, j, a, i) then Code(temp, attrs, dm, b, j) else Stored(temp, dm, j, b)
    {
      data[a, i] := Wrap(data[a, i] + translation);
      i := i + 1;
    }
  }

  /** The translation loops (include/dataset.hpp:127-132). */
  method Translate(temp: Matrix.Matrix<real>, attrs: nat, dm: Method, data: array2<nat>, minima: array<int>)
    requires temp.Valid() && Readable(temp, attrs, dm)
    requires data.Length0 == attrs && data.Length1 == temp.rows && minima.Length == attrs
    requires forall b :: 0 <= b < attrs ==> minima[b] == ColMin(temp, dm, b, temp.rows)
    requires forall b, j :: 0 <= b < attrs && 0 <= j < temp.rows ==> data[b, j] == Stored(temp, dm, j, b)
    modifies data
    ensures forall b, j :: 0 <= b < attrs && 0 <= j < temp.rows ==> data[b, j] == Code(temp, attrs, dm, b, j)
  {
    var a := 0;
    while a < attrs
      invariant 0 <= a <= attrs
      invariant forall b, j :: 0 <= b < attrs && 0 <= j < temp.rows ==>
        data[b, j] == if b < a then Code(temp, attrs, dm, b, j) else Stored(temp, dm, j, b)
    {
      TranslateAttribute(temp, attrs, dm, a, data, minima[a]);
      a := a + 1;
    }
  }

  /** The matrix whose row-major buffer holds the cells of `data`. */
  method Flatten<T>(data: array2<T>) returns (m: Matrix.Matrix<T>)
    ensures m.Valid() && m.rows == data.Length0 && m.cols == data.Length1
    ensures forall r, c :: 0 <= r < m.rows && 0 <= c < m.cols ==> Matrix.At(m, r, c) == data[r, c]
  {
    var rows, cols := data.Length0, data.Length1;
    FlatCells(rows, cols);
    m := Matrix.Matrix(rows, cols, seq(rows * cols, k requires 0 <= k < rows * cols reads data => data[k / cols, k % cols]));
    forall r, c | 0 <= r < rows && 0 <= c < cols
      ensures Matrix.At(m, r, c) == data[r, c]
    {
      Matrix.CellAddress(r, c, rows, cols);
    }
  }

  lemma CodesCells(temp: Matrix.Matrix<real>, attrs: nat, dm: Method)
    requires temp.Valid() && Readable(temp, attrs, dm)
    ensures forall b, j :: 0 <= b < attrs && 0 <= j < temp.rows ==>
      Matrix.At(Codes(temp, attrs, dm), b, j) == Code(temp, attrs, dm, b, j)
  {
    forall b, j | 0 <= b < attrs && 0 <= j < temp.rows
      ensures Matrix.At(Codes(temp, attrs, dm), b, j) == Code(temp, attrs, dm, b, j)
    {
      Matrix.CellAddress(b, j, attrs, temp.rows);
    }
  }

  /** `transpose_and_discretize(temp, dm)` (include/dataset.hpp:69-134):
      `data` holds `_data(a, i)`. */
  method TransposeAndDiscretize(temp: Matrix.Matrix<real>, names: seq<string>, dm: Method)
    returns (r: Result<Matrix.Matrix<nat>, DiscretizeError>)
    requires temp.Valid()
    ensures r == DiscretizeSpec(temp, names, dm)
  {
    var attrs, n := |names|, temp.rows;
    var data := new nat[attrs, n]((_, _) => 0);
    var minima := new int[attrs](_ => 0);
    var maxima := new int[attrs](_ => 0);
    if dm != Unrecognized {
      var fault := DiscretizeCells(temp, attrs, dm, data, minima, maxima);
      if fault != None {
        return Err(fault.value);
      }
    }
    assert Readable(temp, attrs, dm);
    assert forall b :: 0 <= b < attrs ==>
      minima[b] == ColMin(temp, dm, b, n) && maxima[b] == ColMax(temp, dm, b, n);
    assert forall b, j :: 0 <= b < attrs && 0 <= j < n ==> data[b, j] == Stored(temp, dm, j, b);
    var range := CheckRanges(temp, names, dm, minima, maxima);
    if range != None {
      return Err(range.value);
    }
    Translate(temp, attrs, dm, data, minima);
    var m := Flatten(data);
    CodesCells(temp, attrs, dm);
    Matrix.EqualIffCellsEqual(m, Codes(temp, attrs, dm));
    r := Ok(m);
  }

  // ---------------------------------------------------------------------
  // Properties
  // ---------------------------------------------------------------------

  /** The minimum starts at 0: it is at most 0, at most every value seen,
      and either 0 or one of those values. */
  lemma {:induction false} ColMinIsMinWithZero(temp: Matrix.Matrix<real>, dm: Method, a: nat, n: nat)
    requires temp.Valid() && dm != Unrecognized && n <= temp.rows && a < temp.cols
    ensures ColMin(temp, dm, a, n) <= 0
    ensures forall j :: 0 <= j < n ==> ColMin(temp, dm, a, n) <= Val(temp, dm, j, a)
    ensures ColMin(temp, dm, a, n) == 0 || exists j :: 0 <= j < n && ColMin(temp, dm, a, n) == Val(temp, dm, j, a)
  {
    if n > 0 {
      ColMinIsMinWithZero(temp, dm, a, n - 1);
    }
  }

  /** The maximum starts at 0 likewise. */
  lemma {:induction false} ColMaxIsMaxWithZero(temp: Matrix.Matrix<real>, dm: Method, a: nat, n: nat)
    requires temp.Valid() && dm != Unrecognized && n <= temp.rows && a < temp.cols
    ensures ColMax(temp, dm, a, n) >= 0
    ensures forall j :: 0 <= j < n ==> Val(temp, dm, j, a) <= ColMax(temp, dm, a, n)
    ensures ColMax(temp, dm, a, n) == 0 || exists j :: 0 <= j < n && ColMax(temp, dm, a, n) == Val(temp, dm, j, a)
  {
    if n > 0 {
      ColMaxIsMaxWithZero(temp, dm, a, n - 1);
    }
  }

  lemma {:induction false} NoUnrepresentableFrom(temp: Matrix.Matrix<real>, names: seq<string>, dm: Method, a: nat)
    requires temp.Valid() && Readable(temp, |names|, dm) && a <= |names|
    requires FirstUnrepresentable(temp, names, dm, a) == None
    ensures forall b :: a <= b < |names| ==>
      ColMax(temp, dm, b, temp.rows) - ColMin(temp, dm, b, temp.rows) <= CodeMax
    decreases |names| - a
  {
    if a < |names| {
      NoUnrepresentableFrom(temp, names, dm, a + 1);
    }
  }

  /** Adding the wrapped translation to the wrapped value is the wrapped
      difference. */
  lemma WrapSum(x: int, y: int)
    ensures Wrap(Wrap(x) + Wrap(y)) == Wrap(x + y)
  {
    var m := CodeMax + 1;
    assert x == (x / m) * m + Wrap(x);
    assert y == (y / m) * m + Wrap(y);
    assert x + y == (x / m + y / m) * m + (Wrap(x) + Wrap(y));
    ModShift(Wrap(x) + Wrap(y), x / m + y / m);
  }

  lemma ModShift(z: int, q: int)
    ensures (z + q * (CodeMax + 1)) % (CodeMax + 1) == z % (CodeMax + 1)
  {
    var m := CodeMax + 1;
    var r := z % m;
    assert z == (z / m) * m + r;
    assert z + q * m == (z / m + q) * m + r;
  }

  /** With both checks passed, stored code (a, i) is val - min(0, smallest
      value of attribute a), which lies in [0, 255]; the code matrix is
      |names| x temp.rows. */
  lemma TranslatedCodes(temp: Matrix.Matrix<real>, names: seq<string>, dm: Method)
    requires temp.Valid() && dm != Unrecognized && DiscretizeSpec(temp, names, dm).Ok?
    ensures var m := DiscretizeSpec(temp, names, dm).value;
      m.Valid() && m.rows == |names| && m.cols == temp.rows &&
      (temp.rows == 0 || |names| <= temp.cols) &&
      forall a, i :: 0 <= a < |names| && 0 <= i < temp.rows ==>
        Matrix.At(m, a, i) == Val(temp, dm, i, a) - ColMin(temp, dm, a, temp.rows) <= CodeMax
  {
    var attrs, n := |names|, temp.rows;
    NoFaultRows(temp, attrs, dm, 0);
    NoUnrepresentableFrom(temp, names, dm, 0);
    var m := Codes(temp, attrs, dm);
    CodesCells(temp, attrs, dm);
    forall a, i | 0 <= a < attrs && 0 <= i < n
      ensures Matrix.At(m, a, i) == Val(temp, dm, i, a) - ColMin(temp, dm, a, n) <= CodeMax
    {
      assert Fits(temp, dm, i, a);
      TranslatedCell(temp, attrs, dm, a, i);
    }
  }

  lemma TranslatedCell(temp: Matrix.Matrix<real>, attrs: nat, dm: Method, a: nat, i: nat)
    requires temp.Valid() && dm != Unrecognized && a < attrs && i < temp.rows && Fits(temp, dm, i, a)
    requires Readable(temp, attrs, dm)
    requires ColMax(temp, dm, a, temp.rows) - ColMin(temp, dm, a, temp.rows) <= CodeMax
    ensures Code(temp, attrs, dm, a, i) == Val(temp, dm, i, a) - ColMin(temp, dm, a, temp.rows) <= CodeMax
  {
    ColMinIsMinWithZero(temp, dm, a, temp.rows);
    ColMaxIsMaxWithZero(temp, dm, a, temp.rows);
    var v, lo := Val(temp, dm, i, a), ColMin(temp, dm, a, temp.rows);
    WrapSum(v, -lo);
    assert Wrap(v - lo) == v - lo;
  }

  lemma {:induction false} UnrecognizedRangesFit(temp: Matrix.Matrix<real>, names: seq<string>, a: nat)
    requires temp.Valid() && a <= |names|
    ensures FirstUnrepresentable(temp, names, Unrecognized, a) == None
    decreases |names| - a
  {
    if a < |names| {
      UnrecognizedRangesFit(temp, names, a + 1);
    }
  }

  /** An unrecognized method skips the discretizing loops entirely: no cell
      is read, nothing can fail, and every code is 0. */
  lemma UnrecognizedMethodGivesZeros(temp: Matrix.Matrix<real>, names: seq<string>)
    requires temp.Valid()
    ensures DiscretizeSpec(temp, names, Unrecognized) == Ok(Matrix.Create(|names|, temp.rows, 0))
  {
    UnrecognizedRangesFit(temp, names, 0);
    var m := Codes(temp, |names|, Unrecognized);
    assert m.data == Matrix.Create(|names|, temp.rows, 0).data;
  }

  /** Cells that fit can be skipped: the scan from (i0, a0) reports what the
      scan from (i, a) reports when every cell in between fits. */
  lemma {:induction false} SkipFittingCells(temp: Matrix.Matrix<real>, attrs: nat, dm: Method,
                                            i0: nat, a0: nat, i: nat, a: nat)
    requires temp.Valid() && dm != Unrecognized && i0 <= i < temp.rows && a0 <= attrs && a <= attrs
    requires Before(i0, a0, i, a) || (i0 == i && a0 == a)
    requires forall j, b :: 0 <= j && 0 <= b < attrs && Before(j, b, i, a) && !Before(j, b, i0, a0) ==> Fits(temp, dm, j, b)
    ensures FaultFrom(temp, attrs, dm, i0, a0) == FaultFrom(temp, attrs, dm, i, a)
    decreases temp.rows - i0, attrs - a0
  {
    if i0 == i && a0 == a {
    } else if a0 == attrs {
      SkipFittingCells(temp, attrs, dm, i0 + 1, 0, i, a);
    } else {
      assert Fits(temp, dm, i0, a0);
      SkipFittingCells(temp, attrs, dm, i0, a0 + 1, i, a);
    }
  }

  /** An overflow is reported at line i + 2, column a + 1 exactly for the
      first cell (i, a), in row-major order, whose value exceeds 255 in
      magnitude: all cells before it exist and fit. */
  lemma {:induction false} OverflowFrom(temp: Matrix.Matrix<real>, attrs: nat, dm: Method, i0: nat, a0: nat, line: nat, column: nat)
    requires temp.Valid() && dm != Unrecognized && i0 <= temp.rows && a0 <= attrs
    requires FaultFrom(temp, attrs, dm, i0, a0) == Some(Overflow(line, column))
    ensures line >= 2 && column >= 1 && line - 2 < temp.rows && column - 1 < attrs && column - 1 < temp.cols
    ensures Abs(Val(temp, dm, line - 2, column - 1)) > CodeMax
    ensures !Before(line - 2, column - 1, i0, a0)
    ensures forall j, b :: 0 <= j && 0 <= b < attrs && Before(j, b, line - 2, column - 1) && !Before(j, b, i0, a0) ==>
      Fits(temp, dm, j, b)
    decreases temp.rows - i0, attrs - a0
  {
    if a0 == attrs {
      OverflowFrom(temp, attrs, dm, i0 + 1, 0, line, column);
    } else if Fits(temp, dm, i0, a0) {
      OverflowFrom(temp, attrs, dm, i0, a0 + 1, line, column);
    }
  }

  lemma OverflowReported(temp: Matrix.Matrix<real>, names: seq<string>, dm: Method, i: nat, a: nat)
    requires temp.Valid() && dm != Unrecognized
    ensures DiscretizeSpec(temp, names, dm) == Err(Overflow(i + 2, a + 1)) <==>
      i < temp.rows && a < |names| && a < temp.cols && Abs(Val(temp, dm, i, a)) > CodeMax &&
      forall j, b :: 0 <= j && 0 <= b < |names| && Before(j, b, i, a) ==> Fits(temp, dm, j, b)
  {
    if DiscretizeSpec(temp, names, dm) == Err(Overflow(i + 2, a + 1)) {
      OverflowFrom(temp, |names|, dm, 0, 0, i + 2, a + 1);
    } else if i < temp.rows && a < |names| && a < temp.cols && Abs(Val(temp, dm, i, a)) > CodeMax &&
              forall j, b :: 0 <= j && 0 <= b < |names| && Before(j, b, i, a) ==> Fits(temp, dm, j, b) {
      SkipFittingCells(temp, |names|, dm, 0, 0, i, a);
    }
  }

  lemma {:induction false} WideNeverTooFew(temp: Matrix.Matrix<real>, attrs: nat, dm: Method, i: nat, a: nat)
    requires temp.Valid() && dm != Unrecognized && i <= temp.rows && a <= attrs && attrs <= temp.cols
    ensures FaultFrom(temp, attrs, dm, i, a) != Some(TooFewColumns)
    decreases temp.rows - i, attrs - a
  {
    if i < temp.rows {
      if a == attrs {
        WideNeverTooFew(temp, attrs, dm, i + 1, 0);
      } else {
        WideNeverTooFew(temp, attrs, dm, i, a + 1);
      }
    }
  }

  lemma {:induction false} TooFewInFirstRow(temp: Matrix.Matrix<real>, attrs: nat, dm: Method, a0: nat)
    requires temp.Valid() && dm != Unrecognized && temp.rows > 0 && a0 <= attrs && a0 <= temp.cols
    requires FaultFrom(temp, attrs, dm, 0, a0) == Some(TooFewColumns)
    ensures temp.cols < attrs && forall b :: a0 <= b < temp.cols ==> Fits(temp, dm, 0, b)
    decreases attrs - a0
  {
    if a0 == attrs {
      WideNeverTooFew(temp, attrs, dm, 1, 0);
    } else if a0 < temp.cols {
      TooFewInFirstRow(temp, attrs, dm, a0 + 1);
    }
  }

  /** The data has fewer columns than the header has names exactly when the
      first row is read past its last column, after all its cells fit; then
      the `operator()` assert fires. */
  lemma TooFewColumnsReported(temp: Matrix.Matrix<real>, names: seq<string>, dm: Method)
    requires temp.Valid()
    ensures DiscretizeSpec(temp, names, dm) == Err(TooFewColumns) <==>
      dm != Unrecognized && temp.rows > 0 && temp.cols < |names| &&
      forall b :: 0 <= b < temp.cols ==> Fits(temp, dm, 0, b)
  {
    if dm != Unrecognized {
      if DiscretizeSpec(temp, names, dm) == Err(TooFewColumns) && temp.rows > 0 {
        TooFewInFirstRow(temp, |names|, dm, 0);
      } else if temp.rows > 0 && temp.cols < |names| && forall b :: 0 <= b < temp.cols ==> Fits(temp, dm, 0, b) {
        SkipFittingCells(temp, |names|, dm, 0, 0, 0, temp.cols);
      }
    } else {
      UnrecognizedMethodGivesZeros(temp, names);
    }
  }

  /** An attribute is reported as unrepresentable only if its range
      max - min exceeds 255. */
  lemma {:induction false} UnrepresentableFrom(temp: Matrix.Matrix<real>, names: seq<string>, dm: Method, a: nat, name: string)
    requires temp.Valid() && Readable(temp, |names|, dm) && a <= |names|
    requires FirstUnrepresentable(temp, names, dm, a) == Some(Unrepresentable(name))
    ensures exists b :: (a <= b < |names| && names[b] == name &&
                         ColMax(temp, dm, b, temp.rows) - ColMin(temp, dm, b, temp.rows) > CodeMax)
    decreases |names| - a
  {
    if ColMax(temp, dm, a, temp.rows) - ColMin(temp, dm, a, temp.rows) <= CodeMax {
      UnrepresentableFrom(temp, names, dm, a + 1, name);
    }
  }

  lemma UnrepresentableReported(temp: Matrix.Matrix<real>, names: seq<string>, dm: Method, name: string)
    requires temp.Valid() && DiscretizeSpec(temp, names, dm) == Err(Unrepresentable(name))
    ensures Readable(temp, |names|, dm)
    ensures exists b :: (0 <= b < |names| && names[b] == name &&
                         ColMax(temp, dm, b, temp.rows) - ColMin(temp, dm, b, temp.rows) > CodeMax)
  {
    if dm != Unrecognized {
      assert FaultFrom(temp, |names|, dm, 0, 0) == None;
    }
    NoFaultReadable(temp, |names|, dm);
    UnrepresentableFrom(temp, names, dm, 0, name);
  }

  /** Conversely, when no cell faults and attribute b is the first whose
      range exceeds 255 buckets, construction fails naming b. */
  lemma UnrepresentableFirstReported(temp: Matrix.Matrix<real>, names: seq<string>, dm: Method, b: nat)
    requires temp.Valid() && dm != Unrecognized && FaultFrom(temp, |names|, dm, 0, 0) == None
    requires Readable(temp, |names|, dm) && b < |names|
    requires ColMax(temp, dm, b, temp.rows) - ColMin(temp, dm, b, temp.rows) > CodeMax
    requires forall c :: 0 <= c < b ==> ColMax(temp, dm, c, temp.rows) - ColMin(temp, dm, c, temp.rows) <= CodeMax
    ensures DiscretizeSpec(temp, names, dm) == Err(Unrepresentable(names[b]))
  {
    FirstUnrepresentableAt(temp, names, dm, 0, b);
  }

  lemma {:induction false} FirstUnrepresentableAt(temp: Matrix.Matrix<real>, names: seq<string>, dm: Method, a: nat, b: nat)
    requires temp.Valid() && Readable(temp, |names|, dm) && a <= b < |names|
    requires ColMax(temp, dm, b, temp.rows) - ColMin(temp, dm, b, temp.rows) > CodeMax
    requires forall c :: a <= c < b ==> ColMax(temp, dm, c, temp.rows) - ColMin(temp, dm, c, temp.rows) <= CodeMax
    ensures FirstUnrepresentable(temp, names, dm, a) == Some(Unrepresentable(names[b]))
    decreases b - a
  {
    if a < b {
      FirstUnrepresentableAt(temp, names, dm, a + 1, b);
    }
  }

  // ---------------------------------------------------------------------
  // Only the first |names| data columns matter
  // ---------------------------------------------------------------------

  /** Two input matrices with the same rows whose first attrs columns agree. */
  ghost predicate AgreeOn(t1: Matrix.Matrix<real>, t2: Matrix.Matrix<real>, attrs: nat) {
    t1.Valid() && t2.Valid() && t1.rows == t2.rows && attrs <= t1.cols && attrs <= t2.cols &&
    forall i, a :: 0 <= i < t1.rows && 0 <= a < attrs ==> Matrix.At(t1, i, a) == Matrix.At(t2, i, a)
  }

  lemma {:induction false} FaultFromAgree(t1: Matrix.Matrix<real>, t2: Matrix.Matrix<real>, attrs: nat, dm: Method, i: nat, a: nat)
    requires AgreeOn(t1, t2, attrs) && dm != Unrecognized && i <= t1.rows && a <= attrs
    ensures FaultFrom(t1, attrs, dm, i, a) == FaultFrom(t2, attrs, dm, i, a)
    decreases t1.rows - i, attrs - a
  {
    if i < t1.rows {
      if a == attrs {
        FaultFromAgree(t1, t2, attrs, dm, i + 1, 0);
      } else {
        FaultFromAgree(t1, t2, attrs, dm, i, a + 1);
      }
    }
  }

  lemma {:induction false} ColumnRangeAgree(t1: Matrix.Matrix<real>, t2: Matrix.Matrix<real>, attrs: nat, dm: Method, b: nat, n: nat)
    requires AgreeOn(t1, t2, attrs) && b < attrs && n <= t1.rows
    ensures ColMin(t1, dm, b, n) == ColMin(t2, dm, b, n) && ColMax(t1, dm, b, n) == ColMax(t2, dm, b, n)
  {
    if n > 0 {
      ColumnRangeAgree(t1, t2, attrs, dm, b, n - 1);
    }
  }

  lemma {:induction false} UnrepresentableAgree(t1: Matrix.Matrix<real>, t2: Matrix.Matrix<real>, names: seq<string>, dm: Method, a: nat)
    requires AgreeOn(t1, t2, |names|) && a <= |names|
    ensures FirstUnrepresentable(t1, names, dm, a) == FirstUnrepresentable(t2, names, dm, a)
    decreases |names| - a
  {
    if a < |names| {
      ColumnRangeAgree(t1, t2, |names|, dm, a, t1.rows);
      UnrepresentableAgree(t1, t2, names, dm, a + 1);
    }
  }

  /** Discretization reads `temp(i, a)` only for a below the number of
      header names: data columns beyond them never influence the outcome. */
  lemma ExtraColumnsIgnored(t1: Matrix.Matrix<real>, t2: Matrix.Matrix<real>, names: seq<string>, dm: Method)
    requires AgreeOn(t1, t2, |names|)
    ensures DiscretizeSpec(t1, names, dm) == DiscretizeSpec(t2, names, dm)
  {
    var attrs := |names|;
    if dm != Unrecognized {
      FaultFromAgree(t1, t2, attrs, dm, 0, 0);
    }
    UnrepresentableAgree(t1, t2, names, dm, 0);
    CodesAgree(t1, t2, attrs, dm);
  }

  lemma CodesAgree(t1: Matrix.Matrix<real>, t2: Matrix.Matrix<real>, attrs: nat, dm: Method)
    requires AgreeOn(t1, t2, attrs)
    ensures Codes(t1, attrs, dm) == Codes(t2, attrs, dm)
  {
    var c1, c2 := Codes(t1, attrs, dm), Codes(t2, attrs, dm);
    forall k | 0 <= k < attrs * t1.rows
      ensures c1.data[k] == c2.data[k]
    {
      CodeCellAgree(t1, t2, attrs, dm, k);
    }
  }

  lemma CodeCellAgree(t1: Matrix.Matrix<real>, t2: Matrix.Matrix<real>, attrs: nat, dm: Method, k: nat)
    requires AgreeOn(t1, t2, attrs) && k < attrs * t1.rows
    ensures CodeCell(t1, attrs, dm, k) == CodeCell(t2, attrs, dm, k)
  {
    Matrix.FlatCell(k, attrs, t1.rows);
    ColumnRangeAgree(t1, t2, attrs, dm, k / t1.rows, t1.rows);
  }

  /** Conversely, a scan over cells that all exist and fit reports nothing. */
  lemma {:induction false} AllFitNoFault(temp: Matrix.Matrix<real>, attrs: nat, dm: Method, i: nat, a: nat)
    requires temp.Valid() && dm != Unrecognized && i <= temp.rows && a <= attrs
    requires forall j, b :: i <= j < temp.rows && 0 <= b < attrs ==> Fits(temp, dm, j, b)
    ensures FaultFrom(temp, attrs, dm, i, a) == None
    decreases temp.rows - i, attrs - a
  {
    if i == temp.rows {
    } else if a == attrs {
      AllFitNoFault(temp, attrs, dm, i + 1, 0);
    } else {
      assert Fits(temp, dm, i, a);
      AllFitNoFault(temp, attrs, dm, i, a + 1);
    }
  }

  /** Conversely, attributes whose ranges all fit report nothing. */
  lemma {:induction false} AllRangesFit(temp: Matrix.Matrix<real>, names: seq<string>, dm: Method, a: nat)
    requires temp.Valid() && Readable(temp, |names|, dm) && a <= |names|
    requires forall b :: a <= b < |names| ==>
      ColMax(temp, dm, b, temp.rows) - ColMin(temp, dm, b, temp.rows) <= CodeMax
    ensures FirstUnrepresentable(temp, names, dm, a) == None
    decreases |names| - a
  {
    if a < |names| {
      AllRangesFit(temp, names, dm, a + 1);
    }
  }

  /** Whole values in [0, 255] pass through every recognized method
      unchanged: nothing fails, no attribute is translated, and code (a, i)
      is value (i, a). */
  lemma ByteValuesKept(temp: Matrix.Matrix<real>, names: seq<string>, dm: Method)
    requires temp.Valid() && dm != Unrecognized && (temp.rows == 0 || |names| <= temp.cols)
    requires forall i, a :: 0 <= i < temp.rows && 0 <= a < |names| ==>
      Matrix.At(temp, i, a) == Matrix.At(temp, i, a).Floor as real &&
      0.0 <= Matrix.At(temp, i, a) <= CodeMax as real
    ensures DiscretizeSpec(temp, names, dm).Ok?
    ensures var m := DiscretizeSpec(temp, names, dm).value;
      m.Valid() && m.rows == |names| && m.cols == temp.rows &&
      forall a, i :: 0 <= a < |names| && 0 <= i < temp.rows ==> Matrix.At(m, a, i) as real == Matrix.At(temp, i, a)
  {
    var attrs, n := |names|, temp.rows;
    forall j, b | 0 <= j < n && 0 <= b < attrs
      ensures Fits(temp, dm, j, b) && Val(temp, dm, j, b) as real == Matrix.At(temp, j, b)
    {
      var x := Matrix.At(temp, j, b);
      RoundingBounds(dm, x, x.Floor);
    }
    AllFitNoFault(temp, attrs, dm, 0, 0);
    NoFaultReadable(temp, attrs, dm);
    forall b | 0 <= b < attrs
      ensures ColMin(temp, dm, b, n) == 0 && ColMax(temp, dm, b, n) <= CodeMax
    {
      if n > 0 {
        ColMinIsMinWithZero(temp, dm, b, n);
        ColMaxIsMaxWithZero(temp, dm, b, n);
      }
    }
    AllRangesFit(temp, names, dm, 0);
    TranslatedCodes(temp, names, dm);
  }
}
