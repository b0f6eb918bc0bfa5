/** A dense row-major grid over one flat buffer (`matrix<T>` of matrix.hpp):
    cell (r, c) lives at flat position r * cols + c. */
module Matrix {
  import opened Wrappers

  datatype Matrix<T> = Matrix(rows: nat, cols: nat, data: seq<T>) {
    /** The shape invariant: the buffer holds exactly rows * cols cells. */
    predicate Valid() { |data| == rows * cols }
  }

  // ---------------------------------------------------------------------
  // Flat addressing
  // ---------------------------------------------------------------------

  lemma MulLe(a: nat, b: nat, k: nat)
    requires a <= b
    ensures a * k <= b * k
  {
    assert b * k == a * k + (b - a) * k;
  }

  /** Euclidean division by d is determined by any q, m with x == q * d + m, 0 <= m < d. */
  lemma DivModUnique(x: nat, d: nat, q: nat, m: nat)
    requires 0 <= m < d && x == q * d + m
    ensures x / d == q && x % d == m
  {
    var q', m' := x / d, x % d;
    assert q' * d + m' == q * d + m;
    if q' < q {
      MulLe(q' + 1, q, d);
      assert false;
    } else if q < q' {
      MulLe(q + 1, q', d);
      assert false;
    }
  }

  /** `m(r, c)` addresses flat cell r * cols + c: that cell is inside the
      buffer, and the flat position gives back (r, c), so distinct cells never
      share a position. */
  lemma CellAddress(r: nat, c: nat, rows: nat, cols: nat)
    requires r < rows && c < cols
    ensures r * cols + c < rows * cols
    ensures (r * cols + c) / cols == r && (r * cols + c) % cols == c
  {
    MulLe(r + 1, rows, cols);
    DivModUnique(r * cols + c, cols, r, c);
  }

  /** Every flat position of a rows x cols buffer is the address of one cell. */
  lemma FlatCell(k: nat, rows: nat, cols: nat)
    requires k < rows * cols
    ensures cols > 0 && k / cols < rows && k % cols < cols
    ensures (k / cols) * cols + k % cols == k
  {
    if k / cols >= rows {
      MulLe(rows, k / cols, cols);
      assert false;
    }
  }

  /** `m(r, c)` (matrix.hpp:74-85); the asserts are the precondition. */
  function At<T>(m: Matrix<T>, r: nat, c: nat): T
    requires m.Valid() && r < m.rows && c < m.cols
  {
    CellAddress(r, c, m.rows, m.cols);
    m.data[r * m.cols + c]
  }

  lemma {:induction false} AtIsFlatCell<T>(m: Matrix<T>, r: nat, c: nat)
    requires m.Valid() && r < m.rows && c < m.cols
    ensures r * m.cols + c < |m.data| && At(m, r, c) == m.data[r * m.cols + c]
  {
    CellAddress(r, c, m.rows, m.cols);
  }

  // ---------------------------------------------------------------------
  // Construction
  // ---------------------------------------------------------------------

  /** `matrix(num_rows, num_columns)`: every cell is value-initialised; `zero`
      stands for `T()`. */
  function Create<T>(rows: nat, cols: nat, zero: T): (m: Matrix<T>)
    ensures m.Valid() && m.rows == rows && m.cols == cols
  {
    Matrix(rows, cols, seq(rows * cols, _ => zero))
  }

  lemma CreateCells<T>(rows: nat, cols: nat, zero: T)
    ensures forall r, c :: 0 <= r < rows && 0 <= c < cols ==> At(Create(rows, cols, zero), r, c) == zero
  {
    forall r, c | 0 <= r < rows && 0 <= c < cols
      ensures At(Create(rows, cols, zero), r, c) == zero
    {
      AtIsFlatCell(Create(rows, cols, zero), r, c);
    }
  }

  /** `matrix(num_rows, num_columns, value)` never uses `value`: it builds
      the same value-initialised matrix as the two-argument constructor. */
  function CreateFilled<T>(rows: nat, cols: nat, value: T, zero: T): (m: Matrix<T>)
    ensures m == Create(rows, cols, zero)
  {
    Matrix(rows, cols, seq(rows * cols, _ => zero))
  }

  // ---------------------------------------------------------------------
  // Transpose and equality
  // ---------------------------------------------------------------------

  /** Cell k of the transposed buffer: row k / rows, column k % rows of the
      result, i.e. cell (k % rows, k / rows) of m. */
  function TransposedCell<T>(m: Matrix<T>, k: nat): T
    requires m.Valid() && k < m.cols * m.rows
  {
    FlatCell(k, m.cols, m.rows);
    At(m, k % m.rows, k / m.rows)
  }

  /** `transpose()` (matrix.hpp:88-94). */
  function Transpose<T>(m: Matrix<T>): (t: Matrix<T>)
    requires m.Valid()
    ensures t.Valid() && t.rows == m.cols && t.cols == m.rows
  {
    Matrix(m.cols, m.rows, seq(m.cols * m.rows, k requires 0 <= k < m.cols * m.rows => TransposedCell(m, k)))
  }

  /** The transpose of an R x C matrix is C x R with t(c, r) == m(r, c). */
  lemma TransposeCells<T>(m: Matrix<T>)
    requires m.Valid()
    ensures forall r, c :: 0 <= r < m.rows && 0 <= c < m.cols ==> At(Transpose(m), c, r) == At(m, r, c)
  {
    forall r, c | 0 <= r < m.rows && 0 <= c < m.cols
      ensures At(Transpose(m), c, r) == At(m, r, c)
    {
      CellAddress(c, r, m.cols, m.rows);
    }
  }

  /** Transposing twice gives back the matrix (tests.cpp:62-64 check one transpose). */
  lemma TransposeTwice<T>(m: Matrix<T>)
    requires m.Valid()
    ensures Transpose(Transpose(m)) == m
  {
    var t := Transpose(m);
    var tt := Transpose(t);
    TransposeCells(m);
    TransposeCells(t);
    forall k | 0 <= k < |m.data|
      ensures tt.data[k] == m.data[k]
    {
      FlatCell(k, m.rows, m.cols);
      var r, c := k / m.cols, k % m.cols;
      AtIsFlatCell(tt, r, c);
      AtIsFlatCell(m, r, c);
    }
  }

  /** `operator==` (matrix.hpp:97-108): same shape and the first rows * cols
      flat cells agree. */
  function Equal<T(==)>(a: Matrix<T>, b: Matrix<T>): (r: bool)
    requires a.Valid() && b.Valid()
    ensures r <==> a == b
  {
    a.rows == b.rows && a.cols == b.cols &&
    forall i :: 0 <= i < a.rows * a.cols ==> a.data[i] == b.data[i]
  }

  /** Equality holds iff both dimensions match and every cell (r, c) matches. */
  lemma EqualIffCellsEqual<T>(a: Matrix<T>, b: Matrix<T>)
    requires a.Valid() && b.Valid()
    ensures Equal(a, b) <==>
      a.rows == b.rows && a.cols == b.cols &&
      forall r, c :: 0 <= r < a.rows && 0 <= c < a.cols ==> At(a, r, c) == At(b, r, c)
  {
    if a.rows == b.rows && a.cols == b.cols &&
       forall r, c :: 0 <= r < a.rows && 0 <= c < a.cols ==> At(a, r, c) == At(b, r, c)
    {
      forall i | 0 <= i < a.rows * a.cols
        ensures a.data[i] == b.data[i]
      {
        FlatCell(i, a.rows, a.cols);
        AtIsFlatCell(a, i / a.cols, i % a.cols);
        AtIsFlatCell(b, i / a.cols, i % a.cols);
      }
    }
  }

  // ---------------------------------------------------------------------
  // Text form: the input is a finite sequence of tokens, each a value and
  // the character `is.get()` returns after it
  // ---------------------------------------------------------------------

  /** The separator read after a value. Both the serialiser and the parser
      hard-code '\t' (matrix.hpp:114, 117, 154) whatever the configured
      delimiter is; `Eof` is end of input where a separator was expected. */
  datatype Sep = Tab | Newline | Other(ch: char) | Eof

  datatype Token<T> = Token(value: T, sep: Sep)

  function Values<T>(toks: seq<Token<T>>): (vs: seq<T>)
    ensures |vs| == |toks| && forall k :: 0 <= k < |toks| ==> vs[k] == toks[k].value
  {
    seq(|toks|, k requires 0 <= k < |toks| => toks[k].value)
  }

  function SerialToken<T>(m: Matrix<T>, k: nat): Token<T>
    requires m.Valid() && k < |m.data|
  {
    FlatCell(k, m.rows, m.cols);
    Token(m.data[k], if k % m.cols == m.cols - 1 then Newline else Tab)
  }

  /** What `operator<<` writes: every cell in row-major order, followed by a
      tab, or by a newline when it is the last cell of its row. */
  function SerialForm<T>(m: Matrix<T>): (s: seq<Token<T>>)
    requires m.Valid()
    ensures |s| == m.rows * m.cols
  {
    seq(|m.data|, k requires 0 <= k < |m.data| => SerialToken(m, k))
  }

  /** Serialising writes `rows` lines: the cells of row r, in column order,
      joined by tabs, the last one followed by '\n'. */
  lemma SerialFormCells<T>(m: Matrix<T>, r: nat, c: nat)
    requires m.Valid() && r < m.rows && c < m.cols
    ensures r * m.cols + c < |SerialForm(m)|
    ensures SerialForm(m)[r * m.cols + c] == Token(At(m, r, c), if c == m.cols - 1 then Newline else Tab)
  {
    CellAddress(r, c, m.rows, m.cols);
  }

  /** `operator<<` (matrix.hpp:111-123): one line per row. A matrix with rows
      but no columns would read before its buffer (the index
      (row + 1) * 0 - 1 wraps around), so that case is excluded. */
  method Write<T>(m: Matrix<T>) returns (out: seq<Token<T>>)
    requires m.Valid() && (m.rows > 0 ==> m.cols > 0)
    ensures out == SerialForm(m)
  {
    out := [];
    var row := 0;
    while row < m.rows
      invariant 0 <= row <= m.rows
      invariant row * m.cols <= |m.data|
      invariant out == SerialForm(m)[..row * m.cols]
    {
      CellAddress(row, m.cols - 1, m.rows, m.cols);
      var c := 0;
      while c < m.cols - 1
        invariant 0 <= c <= m.cols - 1
        invariant out == SerialForm(m)[..row * m.cols + c]
      {
        CellAddress(row, c, m.rows, m.cols);
        out := out + [Token(m.data[row * m.cols + c], Tab)];
        c := c + 1;
      }
      out := out + [Token(m.data[(row + 1) * m.cols - 1], Newline)];
      row := row + 1;
    }
  }

  // ---------------------------------------------------------------------
  // Parser: `operator>>` (matrix.hpp:125-176)
  // ---------------------------------------------------------------------

  datatype ParseError =
    | InconsistentColumns(row: nat)   // "inconsistent number of columns at matrix row k"
    | InvalidValue(line: nat)         // "invalid value ... at line k"
    | ColumnOutOfRange(row: nat)      // the column assert of `m(r, c)` (matrix.hpp:82-83)

  /** The reader between two tokens: `_num_rows`, `_num_columns`,
      `column_num`, and the whole valarray `_data`, whose length is the
      buffer's current capacity. */
  datatype ReadState<T> = ReadState(rows: nat, cols: nat, colNum: nat, buffer: seq<T>)

  const InitialCapacity: nat := 256

  /** A freshly constructed matrix has an empty valarray, which the reader
      resizes to 256 value-initialised cells (matrix.hpp:127-131). */
  function Start<T>(zero: T): ReadState<T> {
    ReadState(0, 0, 0, seq(InitialCapacity, _ => zero))
  }

  /** Number of cells written so far: all completed rows plus the current
      partial one. */
  function Written<T>(st: ReadState<T>): nat {
    if st.colNum == 0 || st.rows == 0 then st.rows * st.cols else (st.rows - 1) * st.cols + st.colNum
  }

  ghost predicate WellFormed<T>(st: ReadState<T>) {
    (st.rows == 0 ==> st.cols == 0 && st.colNum == 0) &&
    st.colNum <= st.cols &&
    |st.buffer| >= 1 &&
    Written(st) <= |st.buffer|
  }

  /** `++_num_rows` at the start of a row, and the column count that is
      still growing while the first row is read (matrix.hpp:136-141). */
  function NextRows<T>(st: ReadState<T>): nat {
    if st.colNum == 0 then st.rows + 1 else st.rows
  }

  function NextCols<T>(st: ReadState<T>): nat {
    if NextRows(st) == 1 then st.colNum + 1 else st.cols
  }

  /** Size of the replacement valarray when the write position reaches the
      end of the buffer: doubled during row one, 2 * rows * cols later
      (matrix.hpp:142-151). */
  function GrownSize<T>(st: ReadState<T>): nat {
    if NextRows(st) == 1 then 2 * |st.buffer| else 2 * NextRows(st) * NextCols(st)
  }

  function Grow<T>(buffer: seq<T>, size: nat, zero: T): (b: seq<T>)
    requires |buffer| <= size
    ensures |b| == size && b[..|buffer|] == buffer
  {
    buffer + seq(size - |buffer|, _ => zero)
  }

  /** The write position (rows - 1) * cols + column_num is always the number
      of cells written so far, and after growth it lies inside the buffer,
      which never shrinks. */
  lemma StepIndex<T>(st: ReadState<T>)
    requires WellFormed(st) && st.colNum < NextCols(st)
    ensures (NextRows(st) - 1) * NextCols(st) + st.colNum == Written(st)
    ensures Written(st) >= |st.buffer| ==> |st.buffer| <= GrownSize(st) && Written(st) < GrownSize(st)
    ensures Written(st) + 1 <= NextRows(st) * NextCols(st)
  {
    var rows, cols := NextRows(st), NextCols(st);
    assert (rows - 1) * cols + st.colNum == Written(st);
    assert (rows - 1) * cols + st.colNum + 1 <= rows * cols by {
      assert rows * cols == (rows - 1) * cols + cols;
    }
    if rows > 1 {
      MulLe(1, 2, rows * cols);
      assert 2 * rows * cols == 2 * (rows * cols);
    }
  }

  /** The buffer after the value has been stored at the write position,
      growing it first when the position is past its end. */
  function Placed<T>(st: ReadState<T>, v: T, zero: T): (b: seq<T>)
    requires WellFormed(st) && st.colNum < NextCols(st)
    ensures |st.buffer| <= |b| && Written(st) < |b|
  {
    StepIndex(st);
    var idx := (NextRows(st) - 1) * NextCols(st) + st.colNum;
    var grown := if idx >= |st.buffer| then Grow(st.buffer, GrownSize(st), zero) else st.buffer;
    grown[idx := v]
  }

  /** One iteration of the read loop for a value and the separator after it. */
  function Step<T>(st: ReadState<T>, tok: Token<T>, zero: T): (r: Result<ReadState<T>, ParseError>)
    requires WellFormed(st)
    ensures r.Ok? ==> WellFormed(r.value) && Written(r.value) == Written(st) + 1
    ensures r.Ok? ==> r.value.rows >= 1 && |st.buffer| <= |r.value.buffer|
  {
    var rows, cols := NextRows(st), NextCols(st);
    if st.colNum >= cols then Err(ColumnOutOfRange(rows))
    else
      StepIndex(st);
      var buffer := Placed(st, tok.value, zero);
      match tok.sep
      case Tab => Ok(ReadState(rows, cols, st.colNum + 1, buffer))
      case Newline =>
        if st.colNum + 1 == cols then Ok(ReadState(rows, cols, 0, buffer))
        else Err(InconsistentColumns(rows))
      case _ => Err(InvalidValue(rows))
  }

  /** The read loop over the remaining tokens; it stops when they run out
      (the `peek` after a separator reached end of input). */
  function Run<T>(st: ReadState<T>, toks: seq<Token<T>>, zero: T): (r: Result<ReadState<T>, ParseError>)
    requires WellFormed(st)
    ensures r.Ok? ==> WellFormed(r.value) && Written(r.value) == Written(st) + |toks|
    decreases |toks|
  {
    if toks == [] then Ok(st)
    else
      match Step(st, toks[0], zero)
      case Err(e) => Err(e)
      case Ok(next) => Run(next, toks[1..], zero)
  }

  lemma RunStep<T>(st: ReadState<T>, toks: seq<Token<T>>, i: nat, zero: T)
    requires WellFormed(st) && i < |toks|
    ensures Run(st, toks[i..], zero) ==
      match Step(st, toks[i], zero)
      case Err(e) => Err(e)
      case Ok(next) => Run(next, toks[i + 1..], zero)
  {
    assert toks[i..][0] == toks[i] && toks[i..][1..] == toks[i + 1..];
  }

  /** The replacement valarray: value-initialised, then the old cells copied
      to its front (matrix.hpp:143-150). */
  method GrowBuffer<T>(buf: array<T>, size: nat, zero: T) returns (temp: array<T>)
    requires buf.Length <= size
    ensures fresh(temp) && temp[..] == Grow(buf[..], size, zero)
  {
    temp := new T[size](_ => zero);
    forall k | 0 <= k < buf.Length {
      temp[k] := buf[k];
    }
  }

  /** Storing a value at the write position, into a replacement buffer when
      the position is past the end (matrix.hpp:142-152). */
  method PlaceValue<T>(buf: array<T>, rows: nat, cols: nat, colNum: nat, v: T, zero: T, ghost st: ReadState<T>)
    returns (b: array<T>)
    requires WellFormed(st) && st.colNum < NextCols(st) && st.buffer == buf[..]
    requires rows == NextRows(st) && cols == NextCols(st) && colNum == st.colNum
    modifies buf
    ensures (b == buf || fresh(b)) && b[..] == Placed(st, v, zero)
  {
    StepIndex(st);
    var idx := (rows - 1) * cols + colNum;
    b := buf;
    if idx >= buf.Length {
      b := GrowBuffer(buf, if rows == 1 then 2 * buf.Length else 2 * rows * cols, zero);
    }
    b[idx] := v;
  }

  /** One pass of the loop of `operator>>`: count the row and column, store
      the value and read the separator after it (matrix.hpp:134-166). The
      new row, column count and column number come back with the buffer. */
  method ReadToken<T>(buf: array<T>, rows: nat, cols: nat, colNum: nat, tok: Token<T>, zero: T)
    returns (r: Result<(nat, nat, nat), ParseError>, b: array<T>)
    requires WellFormed(ReadState(rows, cols, colNum, buf[..]))
    modifies buf
    ensures b == buf || fresh(b)
    ensures var next := Step(ReadState(rows, cols, colNum, old(buf[..])), tok, zero);
      match r
      case Err(e) => next == Err(e)
      case Ok((rows', cols', colNum')) => next == Ok(ReadState(rows', cols', colNum', b[..]))
  {
    ghost var st := ReadState(rows, cols, colNum, buf[..]);
    b := buf;
    var rows', cols' := rows, cols;
    if colNum == 0 {
      rows' := rows + 1;
    }
    if rows' == 1 {
      cols' := colNum + 1;
    }
    if colNum >= cols' {
      return Err(ColumnOutOfRange(rows')), b;
    }
    b := PlaceValue(buf, rows', cols', colNum, tok.value, zero, st);
    match tok.sep {
      case Tab =>
        r := Ok((rows', cols', colNum + 1));
      case Newline =>
        if colNum + 1 == cols' {
          r := Ok((rows', cols', 0));
        } else {
          r := Err(InconsistentColumns(rows'));
        }
      case _ =>
        r := Err(InvalidValue(rows'));
    }
  }

  /** The loop of `operator>>` with its growing buffer (matrix.hpp:132-168). */
  method ReadCells<T>(toks: seq<Token<T>>, zero: T) returns (r: Result<ReadState<T>, ParseError>)
    ensures r == Run(Start(zero), toks, zero)
  {
    var buf := new T[InitialCapacity](_ => zero);
    var rows, cols, colNum := 0, 0, 0;
    assert buf[..] == Start(zero).buffer;
    var i := 0;
    while i < |toks|
      invariant 0 <= i <= |toks|
      invariant fresh(buf)
      invariant WellFormed(ReadState(rows, cols, colNum, buf[..]))
      invariant Run(Start(zero), toks, zero) == Run(ReadState(rows, cols, colNum, buf[..]), toks[i..], zero)
    {
      RunStep(ReadState(rows, cols, colNum, buf[..]), toks, i, zero);
      var next, b := ReadToken(buf, rows, cols, colNum, toks[i], zero);
      if next.Err? {
        return Err(next.error);
      }
      buf := b;
      rows, cols, colNum := next.value.0, next.value.1, next.value.2;
      i := i + 1;
    }
    assert toks[i..] == [];
    r := Ok(ReadState(rows, cols, colNum, buf[..]));
  }

  /** The final trim (matrix.hpp:169-174), as written: the buffer is cut to
      rows * cols cells only when it is longer than that. */
  function Trim<T>(st: ReadState<T>): Matrix<T> {
    var n := st.rows * st.cols;
    Matrix(st.rows, st.cols, if n < |st.buffer| then st.buffer[..n] else st.buffer)
  }

  /** The evidently intended trim: the buffer becomes exactly rows * cols
      cells, padded with value-initialised cells when it is shorter. */
  function Fit<T>(st: ReadState<T>, zero: T): (m: Matrix<T>)
    ensures m.Valid()
  {
    var n := st.rows * st.cols;
    Matrix(st.rows, st.cols, if n <= |st.buffer| then st.buffer[..n] else st.buffer + seq(n - |st.buffer|, _ => zero))
  }

  /** The reads the loop makes on a body lexed as `toks`. The test is
      `!is.eof()` and eofbit is set only by a read, so the body runs at
      least once (matrix.hpp:133-135): on input already at its end the first
      `is >> d` fails, leaving the value-initialised 0, and `is.get()`
      returns EOF. */
  function Attempts<T>(toks: seq<Token<T>>, zero: T): (a: seq<Token<T>>)
    ensures |a| >= 1
    ensures toks != [] ==> a == toks
  {
    if toks == [] then [Token(zero, Eof)] else toks
  }

  /** `is >> m` into a fresh matrix, exactly as written. */
  function ParseAsWritten<T>(toks: seq<Token<T>>, zero: T): Result<Matrix<T>, ParseError> {
    match Run(Start(zero), Attempts(toks, zero), zero)
    case Err(e) => Err(e)
    case Ok(st) => Ok(Trim(st))
  }

  /** `is >> m` with the corrected final trim; the dataset reader uses this one. */
  function Parse<T>(toks: seq<Token<T>>, zero: T): Result<Matrix<T>, ParseError> {
    match Run(Start(zero), Attempts(toks, zero), zero)
    case Err(e) => Err(e)
    case Ok(st) => Ok(Fit(st, zero))
  }

  method Read<T>(toks: seq<Token<T>>, zero: T) returns (r: Result<Matrix<T>, ParseError>)
    ensures r == ParseAsWritten(toks, zero)
  {
    var attempts := if |toks| == 0 then [Token(zero, Eof)] else toks;
    var cells := ReadCells(attempts, zero);
    match cells {
      case Err(e) => r := Err(e);
      case Ok(st) => r := Ok(Trim(st));
    }
  }

  method ReadFitted<T>(toks: seq<Token<T>>, zero: T) returns (r: Result<Matrix<T>, ParseError>)
    ensures r == Parse(toks, zero)
    ensures r.Ok? ==> r.value.Valid()
  {
    var attempts := if |toks| == 0 then [Token(zero, Eof)] else toks;
    var cells := ReadCells(attempts, zero);
    match cells {
      case Err(e) => r := Err(e);
      case Ok(st) => r := Ok(Fit(st, zero));
    }
  }

  // ---------------------------------------------------------------------
  // Properties of the reader
  // ---------------------------------------------------------------------

  ghost predicate ZeroFrom<T>(b: seq<T>, from: nat, zero: T) {
    forall k :: from <= k < |b| ==> b[k] == zero
  }

  /** One step stores the value at the next write position, keeps every
      earlier cell, leaves the cells after it value-initialised, and grows
      the buffer only when the position is at its end. */
  lemma StepContents<T>(st: ReadState<T>, tok: Token<T>, zero: T)
    requires WellFormed(st) && ZeroFrom(st.buffer, Written(st), zero)
    requires Step(st, tok, zero).Ok?
    ensures var b := Step(st, tok, zero).value.buffer; var w := Written(st);
      b[..w] == st.buffer[..w] && b[w] == tok.value && ZeroFrom(b, w + 1, zero) &&
      (w < |st.buffer| ==> |b| == |st.buffer|)
  {
    StepIndex(st);
  }

  /** Growth keeps the next write index inside the buffer and preserves the
      cells written before: after a run, the cells written are exactly the
      values of the tokens, in order, and the rest is value-initialised. */
  lemma {:induction false} RunContents<T>(st: ReadState<T>, toks: seq<Token<T>>, zero: T)
    requires WellFormed(st) && ZeroFrom(st.buffer, Written(st), zero)
    requires Run(st, toks, zero).Ok?
    ensures var b := Run(st, toks, zero).value.buffer; var w := Written(st);
      w + |toks| <= |b| &&
      b[..w] == st.buffer[..w] && b[w..w + |toks|] == Values(toks) && ZeroFrom(b, w + |toks|, zero) &&
      (w + |toks| <= |st.buffer| ==> |b| == |st.buffer|)
    decreases |toks|
  {
    if toks != [] {
      var next := Step(st, toks[0], zero).value;
      StepContents(st, toks[0], zero);
      RunContents(next, toks[1..], zero);
      assert Values(toks) == [toks[0].value] + Values(toks[1..]);
      ContentsStep(st.buffer, next.buffer, Run(st, toks, zero).value.buffer, Written(st), toks[0].value, Values(toks[1..]));
    }
  }

  /** The buffer contents after one step and after the rest of the run,
      combined. */
  lemma ContentsStep<T>(buf: seq<T>, mid: seq<T>, b: seq<T>, w: nat, v: T, vals: seq<T>)
    requires w <= |buf| && w < |mid| && mid[..w] == buf[..w] && mid[w] == v && (w < |buf| ==> |mid| == |buf|)
    requires w + 1 + |vals| <= |b| && b[..w + 1] == mid[..w + 1] && b[w + 1..w + 1 + |vals|] == vals
    requires w + 1 + |vals| <= |mid| ==> |b| == |mid|
    ensures b[..w] == buf[..w] && b[w..w + 1 + |vals|] == [v] + vals
    ensures w + 1 + |vals| <= |buf| ==> |b| == |buf|
  {
    assert b[..w] == b[..w + 1][..w];
    assert b[w..w + 1 + |vals|] == [b[w]] + b[w + 1..w + 1 + |vals|];
  }

  lemma {:induction false} RunAppend<T>(st: ReadState<T>, a: seq<Token<T>>, b: seq<Token<T>>, zero: T)
    requires WellFormed(st)
    ensures Run(st, a + b, zero) ==
      match Run(st, a, zero)
      case Err(e) => Err(e)
      case Ok(mid) => Run(mid, b, zero)
    decreases |a|
  {
    if a == [] {
      assert a + b == b;
    } else {
      assert (a + b)[0] == a[0] && (a + b)[1..] == a[1..] + b;
      match Step(st, a[0], zero)
      case Err(e) =>
      case Ok(next) => RunAppend(next, a[1..], b, zero);
    }
  }

  lemma RunOne<T>(st: ReadState<T>, t: Token<T>, zero: T)
    requires WellFormed(st)
    ensures Run(st, [t], zero) == Step(st, t, zero)
  {
    assert [t][1..] == [];
  }

  /** Tokens of one line of width c: tabs after every value but the last,
      which is followed by the newline. */
  ghost predicate IsLine<T>(row: seq<Token<T>>, c: nat) {
    |row| == c && forall j :: 0 <= j < c ==> row[j].sep == if j == c - 1 then Newline else Tab
  }

  /** While the first row is read, the column count is the number of values
      seen so far. */
  lemma {:induction false} FirstRowPrefix<T>(row: seq<Token<T>>, j: nat, zero: T) returns (b: seq<T>)
    requires 1 <= j <= |row| && forall k :: 0 <= k < j ==> row[k].sep == Tab
    ensures Run(Start(zero), row[..j], zero) == Ok(ReadState(1, j, j, b))
  {
    if j == 1 {
      assert row[..1] == [row[0]];
      RunOne(Start(zero), row[0], zero);
      b := Step(Start(zero), row[0], zero).value.buffer;
    } else {
      var b0 := FirstRowPrefix(row, j - 1, zero);
      assert row[..j] == row[..j - 1] + [row[j - 1]];
      RunAppend(Start(zero), row[..j - 1], [row[j - 1]], zero);
      RunOne(ReadState(1, j - 1, j - 1, b0), row[j - 1], zero);
      b := Step(ReadState(1, j - 1, j - 1, b0), row[j - 1], zero).value.buffer;
    }
  }

  /** The first row fixes the column count: its newline closes row one with
      as many columns as it had values. */
  lemma FirstRow<T>(row: seq<Token<T>>, c: nat, zero: T) returns (b: seq<T>)
    requires c >= 1 && IsLine(row, c)
    ensures Run(Start(zero), row, zero) == Ok(ReadState(1, c, 0, b))
  {
    assert row == row[..c];
    if c == 1 {
      RunOne(Start(zero), row[0], zero);
      assert row == [row[0]];
      b := Step(Start(zero), row[0], zero).value.buffer;
    } else {
      var b0 := FirstRowPrefix(row, c - 1, zero);
      assert row == row[..c - 1] + [row[c - 1]];
      RunAppend(Start(zero), row[..c - 1], [row[c - 1]], zero);
      RunOne(ReadState(1, c - 1, c - 1, b0), row[c - 1], zero);
      b := Step(ReadState(1, c - 1, c - 1, b0), row[c - 1], zero).value.buffer;
    }
  }

  /** In a later row the column count stays fixed and column_num counts the
      values read in that row. */
  lemma {:induction false} LaterRowPrefix<T>(st: ReadState<T>, row: seq<Token<T>>, j: nat, zero: T) returns (b: seq<T>)
    requires WellFormed(st) && st.rows >= 1 && st.colNum == 0 && st.cols >= 1
    requires j <= |row| && j <= st.cols && forall k :: 0 <= k < j ==> row[k].sep == Tab
    ensures j == 0 ==> Run(st, row[..j], zero) == Ok(st)
    ensures j > 0 ==> Run(st, row[..j], zero) == Ok(ReadState(st.rows + 1, st.cols, j, b))
  {
    b := st.buffer;
    if j == 0 {
      assert row[..0] == [];
    } else if j == 1 {
      assert row[..1] == [row[0]];
      RunOne(st, row[0], zero);
      b := Step(st, row[0], zero).value.buffer;
    } else {
      var b0 := LaterRowPrefix(st, row, j - 1, zero);
      var mid := ReadState(st.rows + 1, st.cols, j - 1, b0);
      assert row[..j] == row[..j - 1] + [row[j - 1]];
      RunAppend(st, row[..j - 1], [row[j - 1]], zero);
      RunOne(mid, row[j - 1], zero);
      b := Step(mid, row[j - 1], zero).value.buffer;
    }
  }

  lemma LaterRow<T>(st: ReadState<T>, row: seq<Token<T>>, zero: T) returns (b: seq<T>)
    requires WellFormed(st) && st.rows >= 1 && st.colNum == 0 && st.cols >= 1
    requires IsLine(row, st.cols)
    ensures Run(st, row, zero) == Ok(ReadState(st.rows + 1, st.cols, 0, b))
  {
    var c := st.cols;
    var b0 := LaterRowPrefix(st, row, c - 1, zero);
    var mid := if c == 1 then st else ReadState(st.rows + 1, c, c - 1, b0);
    assert row == row[..c - 1] + [row[c - 1]];
    RunAppend(st, row[..c - 1], [row[c - 1]], zero);
    RunOne(mid, row[c - 1], zero);
    b := Step(mid, row[c - 1], zero).value.buffer;
  }

  lemma SerialLine<T>(m: Matrix<T>, r: nat)
    requires m.Valid() && r < m.rows
    ensures (r + 1) * m.cols <= |SerialForm(m)|
    ensures IsLine(SerialForm(m)[r * m.cols..(r + 1) * m.cols], m.cols)
  {
    MulLe(r + 1, m.rows, m.cols);
    var line := SerialForm(m)[r * m.cols..(r + 1) * m.cols];
    forall j | 0 <= j < m.cols
      ensures line[j].sep == if j == m.cols - 1 then Newline else Tab
    {
      SerialFormCells(m, r, j);
    }
  }

  /** Reading the first r serialised lines leaves r complete rows of the
      matrix's width. */
  lemma {:induction false} RunSerialRows<T>(m: Matrix<T>, r: nat, zero: T) returns (b: seq<T>)
    requires m.Valid() && m.cols >= 1 && 1 <= r <= m.rows
    ensures r * m.cols <= |SerialForm(m)|
    ensures Run(Start(zero), SerialForm(m)[..r * m.cols], zero) == Ok(ReadState(r, m.cols, 0, b))
  {
    var sf := SerialForm(m);
    if r == 1 {
      SerialLine(m, 0);
      assert sf[..m.cols] == sf[0 * m.cols..1 * m.cols];
      b := FirstRow(sf[..m.cols], m.cols, zero);
    } else {
      var b0 := RunSerialRows(m, r - 1, zero);
      SerialLine(m, r - 1);
      var line := sf[(r - 1) * m.cols..r * m.cols];
      assert sf[..r * m.cols] == sf[..(r - 1) * m.cols] + line;
      RunAppend(Start(zero), sf[..(r - 1) * m.cols], line, zero);
      b := LaterRow(ReadState(r - 1, m.cols, 0, b0), line, zero);
    }
  }

  lemma StartIsBlank<T>(zero: T)
    ensures WellFormed(Start(zero)) && Written(Start(zero)) == 0
    ensures ZeroFrom(Start(zero).buffer, 0, zero)
  {
  }

  /** Parsing the serialisation of a matrix yields an equal matrix
      (tests.cpp:53-61), with the as-written trim as well as the corrected one. */
  lemma RoundTrip<T>(m: Matrix<T>, zero: T)
    requires m.Valid() && m.rows >= 1 && m.cols >= 1
    ensures ParseAsWritten(SerialForm(m), zero) == Ok(m)
    ensures Parse(SerialForm(m), zero) == Ok(m)
  {
    var sf := SerialForm(m);
    var b := RunSerialRows(m, m.rows, zero);
    assert sf[..m.rows * m.cols] == sf;
    StartIsBlank(zero);
    RunContents(Start(zero), sf, zero);
    assert Values(sf) == m.data;
    assert b[..|sf|] == m.data;
    assert |sf| == |b| ==> b == b[..|sf|];
  }

  /** A later row with fewer values than the first aborts with "inconsistent
      number of columns at matrix row k". */
  lemma ShortRowRejected<T>(m: Matrix<T>, row: seq<Token<T>>, zero: T)
    requires m.Valid() && m.rows >= 1 && m.cols >= 2
    requires 1 <= |row| < m.cols && IsLine(row, |row|)
    ensures ParseAsWritten(SerialForm(m) + row, zero) == Err(InconsistentColumns(m.rows + 1))
    ensures Parse(SerialForm(m) + row, zero) == Err(InconsistentColumns(m.rows + 1))
  {
    var sf := SerialForm(m);
    var k := |row|;
    var b := RunSerialRows(m, m.rows, zero);
    assert sf[..m.rows * m.cols] == sf;
    var st := ReadState(m.rows, m.cols, 0, b);
    RunAppend(Start(zero), sf, row, zero);
    var b0 := LaterRowPrefix(st, row, k - 1, zero);
    var mid := if k == 1 then st else ReadState(m.rows + 1, m.cols, k - 1, b0);
    assert row == row[..k - 1] + [row[k - 1]];
    RunAppend(st, row[..k - 1], [row[k - 1]], zero);
    RunOne(mid, row[k - 1], zero);
  }

  /** A later row with more values than the first fails at the column assert
      of `m(r, c)` as soon as its value in column `cols` is stored. */
  lemma LongRowRejected<T>(m: Matrix<T>, row: seq<Token<T>>, zero: T)
    requires m.Valid() && m.rows >= 1 && m.cols >= 1
    requires |row| > m.cols && forall j :: 0 <= j < m.cols ==> row[j].sep == Tab
    ensures ParseAsWritten(SerialForm(m) + row, zero) == Err(ColumnOutOfRange(m.rows + 1))
    ensures Parse(SerialForm(m) + row, zero) == Err(ColumnOutOfRange(m.rows + 1))
  {
    var sf := SerialForm(m);
    var b := RunSerialRows(m, m.rows, zero);
    assert sf[..m.rows * m.cols] == sf;
    var st := ReadState(m.rows, m.cols, 0, b);
    RunAppend(Start(zero), sf, row, zero);
    var b0 := LaterRowPrefix(st, row, m.cols, zero);
    assert row == row[..m.cols] + row[m.cols..];
    RunAppend(st, row[..m.cols], row[m.cols..], zero);
  }

  /** Any separator other than '\t' or '\n' after a value, end of input
      included, aborts with "invalid value" at the current line. */
  lemma BadSeparatorRejected<T>(toks: seq<Token<T>>, t: Token<T>, zero: T)
    requires Run(Start(zero), toks, zero).Ok?
    requires t.sep != Tab && t.sep != Newline
    requires Run(Start(zero), toks, zero).value.colNum < NextCols(Run(Start(zero), toks, zero).value)
    ensures ParseAsWritten(toks + [t], zero) == Err(InvalidValue(NextRows(Run(Start(zero), toks, zero).value)))
  {
    RunAppend(Start(zero), toks, [t], zero);
    RunOne(Run(Start(zero), toks, zero).value, t, zero);
  }

  /** After complete lines, a value followed by end of input (a last line
      without its newline, or a blank line read as a failed value) aborts. */
  lemma MissingNewlineRejected<T>(m: Matrix<T>, v: T, zero: T)
    requires m.Valid() && m.rows >= 1 && m.cols >= 1
    ensures ParseAsWritten(SerialForm(m) + [Token(v, Eof)], zero) == Err(InvalidValue(m.rows + 1))
  {
    var sf := SerialForm(m);
    var b := RunSerialRows(m, m.rows, zero);
    assert sf[..m.rows * m.cols] == sf;
    BadSeparatorRejected(sf, Token(v, Eof), zero);
  }

  /** An empty body is not an empty matrix: the one read the loop makes
      fails, and `operator>>` reports "invalid value" at line 1. */
  lemma EmptyBodyRejected<T>(zero: T)
    ensures ParseAsWritten([], zero) == Err(InvalidValue(1))
    ensures Parse([], zero) == Err(InvalidValue(1))
  {
    StartIsBlank(zero);
    RunOne(Start(zero), Token(zero, Eof), zero);
  }

  /** As written, the trim is skipped when rows * cols is not below the buffer
      size. A last row cut short by "\t" and end of input can leave the
      buffer shorter than rows * cols: a 200-value first row fits the
      initial 256 cells, and one more value followed by a tab makes the
      matrix 2 x 200 over 256 cells. */
  lemma TrailingTabLeavesShortBuffer()
    ensures var toks := seq(199, _ => Token(0, Tab)) + [Token(0, Newline), Token(0, Tab)];
      var r := ParseAsWritten(toks, 0);
      r.Ok? && r.value.rows == 2 && r.value.cols == 200 && |r.value.data| == 256 && !r.value.Valid()
  {
    var line := seq(199, _ => Token(0, Tab)) + [Token(0, Newline)];
    var toks := line + [Token(0, Tab)];
    assert toks == seq(199, _ => Token(0, Tab)) + [Token(0, Newline), Token(0, Tab)];
    assert IsLine(line, 200);
    var b := FirstRow(line, 200, 0);
    StartIsBlank(0);
    RunContents(Start(0), line, 0);
    var st := ReadState(1, 200, 0, b);
    assert |b| == 256;
    RunAppend(Start(0), line, [Token(0, Tab)], 0);
    RunOne(st, Token(0, Tab), 0);
    StepIndex(st);
  }

  /** With the corrected trim every parsed matrix keeps its shape invariant,
      and it agrees with the as-written trim whenever that one does. */
  lemma FittedParse<T>(toks: seq<Token<T>>, zero: T)
    ensures Parse(toks, zero).Ok? ==> Parse(toks, zero).value.Valid()
    ensures ParseAsWritten(toks, zero).Ok? <==> Parse(toks, zero).Ok?
    ensures ParseAsWritten(toks, zero).Ok? && ParseAsWritten(toks, zero).value.Valid() ==>
      Parse(toks, zero) == ParseAsWritten(toks, zero)
  {
    var a := Attempts(toks, zero);
    if Run(Start(zero), a, zero).Ok? {
      var st := Run(Start(zero), a, zero).value;
      var n := st.rows * st.cols;
      if Trim(st).Valid() && n == |st.buffer| {
        assert st.buffer[..n] == st.buffer;
      }
    }
  }
}
