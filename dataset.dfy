/** `dataset<unsigned char>` (include/dataset.hpp, and the earlier
    single-constructor version in dataset.hpp): attribute names, one
    attribute_information per attribute, and the attribute-major code
    matrix; its two constructors, mutual information between two attributes,
    and the writer. */
module Dataset {
  import opened Wrappers
  import Matrix
  import AttributeInformation
  import Discretization

  /** `DELIMITER` (include/dataset.hpp:37). */
  const Delimiter: char := '\t'

  datatype DatasetError =
    | /** "missing required newline after header" and exit 2. */
      MissingHeaderNewline
    | /** The data matrix reader aborts. */
      Malformed(parse: Matrix.ParseError)
    | /** Discretization aborts. */
      Discretize(fault: Discretization.DiscretizeError)
    | /** At least one attribute but no instance: the histogram scan of
          attribute_information runs before its first bin. */
      NoInstances
    | /** `std::logic_error` "data size must equal the product of
          num_instances and num_attributes". */
      SizeMismatch
    | /** `std::logic_error` "names size must either equal num_attributes or
          be 0". */
      NamesMismatch
    | /** `std::out_of_range` from `_attr_info.at`. */
      NoSuchAttribute

  datatype Dataset = Dataset(names: seq<string>,
                             attrInfo: seq<AttributeInformation.AttributeInformation>,
                             data: Matrix.Matrix<nat>)

  /** `num_instances()`: the columns of the attribute-major matrix. */
  function NumInstances(ds: Dataset): nat { ds.data.cols }

  /** `num_attributes()`: the number of names. */
  function NumAttributes(ds: Dataset): nat { |ds.names| }

  /** The codes of attribute a: `[&_data(a, 0), &_data(a, 0) + num_instances())`. */
  function Row(m: Matrix.Matrix<nat>, a: nat): (row: seq<nat>)
    requires m.Valid() && a < m.rows
    ensures |row| == m.cols
  {
    Matrix.MulLe(a + 1, m.rows, m.cols);
    m.data[a * m.cols .. (a + 1) * m.cols]
  }

  lemma RowCells(m: Matrix.Matrix<nat>, a: nat)
    requires m.Valid() && a < m.rows
    ensures forall i :: 0 <= i < m.cols ==> Row(m, a)[i] == Matrix.At(m, a, i)
  {
    forall i | 0 <= i < m.cols
      ensures Row(m, a)[i] == Matrix.At(m, a, i)
    {
      Matrix.AtIsFlatCell(m, a, i);
    }
  }

  /** Every code fits an unsigned char. */
  ghost predicate CodesFit(m: Matrix.Matrix<nat>) {
    forall k :: 0 <= k < |m.data| ==> m.data[k] <= AttributeInformation.CodeMax
  }

  /** The per-attribute information for every attribute of the codes. */
  function Infos(m: Matrix.Matrix<nat>, log2: real -> real): (infos: seq<AttributeInformation.AttributeInformation>)
    requires m.Valid() && (m.rows > 0 ==> m.cols > 0)
    ensures |infos| == m.rows
  {
    seq(m.rows, a requires 0 <= a < m.rows => AttributeInformation.Info(Row(m, a), log2))
  }

  /** What every constructor establishes. */
  ghost predicate Valid(ds: Dataset, log2: real -> real) {
    ds.data.Valid() && ds.data.rows == |ds.names| && CodesFit(ds.data) &&
    (|ds.names| > 0 ==> ds.data.cols > 0) &&
    ds.attrInfo == Infos(ds.data, log2)
  }

  // ---------------------------------------------------------------------
  // compute_attribute_information (include/dataset.hpp:136-145)
  // ---------------------------------------------------------------------

  method ComputeAttributeInformation(m: Matrix.Matrix<nat>, log2: real -> real)
    returns (infos: seq<AttributeInformation.AttributeInformation>)
    requires m.Valid() && CodesFit(m) && (m.rows > 0 ==> m.cols > 0)
    ensures infos == Infos(m, log2)
  {
    infos := [];
    var a := 0;
    while a < m.rows
      invariant 0 <= a <= m.rows
      invariant infos == Infos(m, log2)[..a]
    {
      var row := Row(m, a);
      RowFits(m, a);
      var info := AttributeInformation.New(row, log2);
      InfosNext(m, log2, a);
      infos := infos + [info];
      a := a + 1;
    }
  }

  lemma RowFits(m: Matrix.Matrix<nat>, a: nat)
    requires m.Valid() && CodesFit(m) && a < m.rows
    ensures forall k :: 0 <= k < |Row(m, a)| ==> Row(m, a)[k] <= AttributeInformation.CodeMax
  {
    var row := Row(m, a);
    forall k | 0 <= k < |row|
      ensures row[k] <= AttributeInformation.CodeMax
    {
      Matrix.MulLe(a + 1, m.rows, m.cols);
      assert row[k] == m.data[a * m.cols + k];
    }
  }

  lemma InfosNext(m: Matrix.Matrix<nat>, log2: real -> real, a: nat)
    requires m.Valid() && (m.rows > 0 ==> m.cols > 0) && a < m.rows
    ensures Infos(m, log2)[..a + 1] == Infos(m, log2)[..a] + [AttributeInformation.Info(Row(m, a), log2)]
  {
    var infos := Infos(m, log2);
    assert infos[..a + 1] == infos[..a] + [infos[a]];
  }

  // ---------------------------------------------------------------------
  // Discretization and attribute information, shared by both constructors
  // ---------------------------------------------------------------------

  /** `transpose_and_discretize(temp, dm)` followed by
      `compute_attribute_information()`, shared by both constructors. */
  function Assemble(temp: Matrix.Matrix<real>, names: seq<string>, dm: Discretization.Method,
                    log2: real -> real): Result<Dataset, DatasetError>
    requires temp.Valid()
  {
    match Discretization.DiscretizeSpec(temp, names, dm)
    case Err(e) => Err(Discretize(e))
    case Ok(codes) =>
      if |names| > 0 && temp.rows == 0 then Err(NoInstances)
      else
        DiscretizedCodesFit(temp, names, dm);
        Ok(Dataset(names, Infos(codes, log2), codes))
  }

  method AssembleFrom(temp: Matrix.Matrix<real>, names: seq<string>, dm: Discretization.Method,
                      log2: real -> real) returns (r: Result<Dataset, DatasetError>)
    requires temp.Valid()
    ensures r == Assemble(temp, names, dm, log2)
  {
    var discretized := Discretization.TransposeAndDiscretize(temp, names, dm);
    if discretized.Err? {
      return Err(Discretize(discretized.error));
    }
    var codes := discretized.value;
    if |names| > 0 && temp.rows == 0 {
      return Err(NoInstances);
    }
    DiscretizedCodesFit(temp, names, dm);
    var infos := ComputeAttributeInformation(codes, log2);
    r := Ok(Dataset(names, infos, codes));
  }

  /** Discretized codes are unsigned chars. */
  lemma DiscretizedCodesFit(temp: Matrix.Matrix<real>, names: seq<string>, dm: Discretization.Method)
    requires temp.Valid() && Discretization.DiscretizeSpec(temp, names, dm).Ok?
    ensures var m := Discretization.DiscretizeSpec(temp, names, dm).value;
      m.Valid() && m.rows == |names| && m.cols == temp.rows && CodesFit(m)
  {
    if dm == Discretization.Unrecognized {
      Discretization.UnrecognizedMethodGivesZeros(temp, names);
      ZerosFit(|names|, temp.rows);
    } else {
      TranslatedCodesFit(temp, names, dm);
    }
  }

  lemma ZerosFit(rows: nat, cols: nat)
    ensures CodesFit(Matrix.Create(rows, cols, 0))
  {
  }

  lemma TranslatedCodesFit(temp: Matrix.Matrix<real>, names: seq<string>, dm: Discretization.Method)
    requires temp.Valid() && dm != Discretization.Unrecognized && Discretization.DiscretizeSpec(temp, names, dm).Ok?
    ensures var m := Discretization.DiscretizeSpec(temp, names, dm).value;
      m.Valid() && m.rows == |names| && m.cols == temp.rows && CodesFit(m)
  {
    var m := Discretization.DiscretizeSpec(temp, names, dm).value;
    Discretization.TranslatedCodes(temp, names, dm);
    forall a, i | 0 <= a < |names| && 0 <= i < temp.rows
      ensures Matrix.At(m, a, i) <= AttributeInformation.CodeMax
    {
      assert Matrix.At(m, a, i) == Discretization.Val(temp, dm, i, a) - Discretization.ColMin(temp, dm, a, temp.rows);
    }
    CellsFit(m);
  }

  /** A matrix whose every cell fits an unsigned char. */
  lemma CellsFit(m: Matrix.Matrix<nat>)
    requires m.Valid()
    requires forall a, i :: 0 <= a < m.rows && 0 <= i < m.cols ==> Matrix.At(m, a, i) <= AttributeInformation.CodeMax
    ensures CodesFit(m)
  {
    forall k | 0 <= k < |m.data|
      ensures m.data[k] <= AttributeInformation.CodeMax
    {
      Matrix.FlatCell(k, m.rows, m.cols);
      var a, i := k / m.cols, k % m.cols;
      Matrix.AtIsFlatCell(m, a, i);
      assert a * m.cols + i == k;
      assert Matrix.At(m, a, i) <= AttributeInformation.CodeMax;
    }
  }

  /** Every dataset either constructor builds satisfies the class
      invariant. */
  lemma AssembledValid(temp: Matrix.Matrix<real>, names: seq<string>, dm: Discretization.Method, log2: real -> real)
    requires temp.Valid() && Assemble(temp, names, dm, log2).Ok?
    ensures Valid(Assemble(temp, names, dm, log2).value, log2)
  {
    DiscretizedCodesFit(temp, names, dm);
  }

  // ---------------------------------------------------------------------
  // The stream constructor (include/dataset.hpp:151-174, dataset.hpp:67-158)
  // ---------------------------------------------------------------------

  /** The dataset read from a header of names, whether the header loop
      stopped at a newline, and the data tokens that follow. */
  function StreamSpec(header: seq<string>, newlineAfterHeader: bool, body: seq<Matrix.Token<real>>,
                      dm: Discretization.Method, log2: real -> real): Result<Dataset, DatasetError>
  {
    if !newlineAfterHeader then Err(MissingHeaderNewline)
    else
      match Matrix.Parse(body, 0.0)
      case Err(e) => Err(Malformed(e))
      case Ok(temp) => Matrix.FittedParse(body, 0.0); Assemble(temp, header, dm, log2)
  }

  /** A header line with no data lines after it is rejected by the matrix
      reader, not read as a dataset without instances. */
  lemma EmptyBodyMalformed(header: seq<string>, dm: Discretization.Method, log2: real -> real)
    ensures StreamSpec(header, true, [], dm, log2) == Err(Malformed(Matrix.InvalidValue(1)))
  {
    Matrix.EmptyBodyRejected(0.0);
  }

  method FromStream(header: seq<string>, newlineAfterHeader: bool, body: seq<Matrix.Token<real>>,
                    dm: Discretization.Method, log2: real -> real)
    returns (r: Result<Dataset, DatasetError>)
    ensures r == StreamSpec(header, newlineAfterHeader, body, dm, log2)
  {
    if !newlineAfterHeader {
      return Err(MissingHeaderNewline);
    }
    var parsed := Matrix.ReadFitted(body, 0.0);
    if parsed.Err? {
      return Err(Malformed(parsed.error));
    }
    r := AssembleFrom(parsed.value, header, dm, log2);
  }

  // ---------------------------------------------------------------------
  // The vector constructor (include/dataset.hpp:176-204)
  // ---------------------------------------------------------------------

  /** `std::to_string` of a non-negative number: its decimal digits. */
  function NatToString(x: nat): (s: string)
    ensures |s| >= 1 && forall k :: 0 <= k < |s| ==> '0' <= s[k] <= '9'
    decreases x
  {
    if x < 10 then ["0123456789"[x]] else NatToString(x / 10) + ["0123456789"[x % 10]]
  }

  /** The number a string of decimal digits denotes. */
  function DecimalValue(s: string): nat
    requires forall k :: 0 <= k < |s| ==> '0' <= s[k] <= '9'
  {
    if |s| == 0 then 0 else DecimalValue(s[..|s| - 1]) * 10 + (s[|s| - 1] as int - '0' as int)
  }

  lemma {:induction false} DecimalRoundTrip(x: nat)
    ensures DecimalValue(NatToString(x)) == x
    decreases x
  {
    var s := NatToString(x);
    if x >= 10 {
      DecimalRoundTrip(x / 10);
      assert s[..|s| - 1] == NatToString(x / 10);
    }
  }

  /** The names given to unnamed attributes: attr0, attr1, ... */
  function DefaultNames(attrs: nat): (names: seq<string>)
    ensures |names| == attrs
  {
    seq(attrs, i requires 0 <= i => "attr" + NatToString(i))
  }

  /** The default names are pairwise distinct. */
  lemma DefaultNamesDistinct(attrs: nat, i: nat, j: nat)
    requires i < attrs && j < attrs && i != j
    ensures DefaultNames(attrs)[i] != DefaultNames(attrs)[j]
  {
    var si, sj := NatToString(i), NatToString(j);
    if DefaultNames(attrs)[i] == DefaultNames(attrs)[j] {
      assert ("attr" + si)[4..] == si && ("attr" + sj)[4..] == sj;
      DecimalRoundTrip(i);
      DecimalRoundTrip(j);
      assert false;
    }
  }

  /** Where instance i, attribute a sits in the input vector. */
  function Source(n: nat, attrs: nat, columnMajor: bool, i: nat, a: nat): (k: nat)
    requires i < n && a < attrs
    ensures k < |seq(n * attrs, _ => 0)|
  {
    if columnMajor then
      Matrix.CellAddress(a, i, attrs, n);
      a * n + i
    else
      Matrix.CellAddress(i, a, n, attrs);
      i * attrs + a
  }

  /** `temp(i, a) = data[...]` into a `matrix<unsigned char>`: integer
      values are narrowed modulo 256. */
  function Narrowed(data: seq<int>, n: nat, attrs: nat, columnMajor: bool, i: nat, a: nat): real
    requires |data| == n * attrs && i < n && a < attrs
  {
    Discretization.Wrap(data[Source(n, attrs, columnMajor, i, a)]) as real
  }

  function NarrowedCell(data: seq<int>, n: nat, attrs: nat, columnMajor: bool, k: nat): real
    requires |data| == n * attrs && k < n * attrs
  {
    Matrix.FlatCell(k, n, attrs);
    Narrowed(data, n, attrs, columnMajor, k / attrs, k % attrs)
  }

  /** The instance-major `temp` matrix. */
  function ValuesTemp(data: seq<int>, n: nat, attrs: nat, columnMajor: bool): (temp: Matrix.Matrix<real>)
    requires |data| == n * attrs
    ensures temp.Valid() && temp.rows == n && temp.cols == attrs
  {
    Matrix.Matrix(n, attrs, seq(n * attrs, k requires 0 <= k < n * attrs => NarrowedCell(data, n, attrs, columnMajor, k)))
  }

  lemma ValuesTempCells(data: seq<int>, n: nat, attrs: nat, columnMajor: bool)
    requires |data| == n * attrs
    ensures forall i, a :: 0 <= i < n && 0 <= a < attrs ==>
      Matrix.At(ValuesTemp(data, n, attrs, columnMajor), i, a) == Narrowed(data, n, attrs, columnMajor, i, a)
  {
    forall i, a | 0 <= i < n && 0 <= a < attrs
      ensures Matrix.At(ValuesTemp(data, n, attrs, columnMajor), i, a) == Narrowed(data, n, attrs, columnMajor, i, a)
    {
      Matrix.CellAddress(i, a, n, attrs);
    }
  }

  /** The names the dataset keeps, or why the constructor throws. */
  function ValuesNames(data: seq<int>, n: nat, attrs: nat, names: seq<string>): Result<seq<string>, DatasetError> {
    if n * attrs != |data| then Err(SizeMismatch)
    else if |names| == 0 then Ok(DefaultNames(attrs))
    else if attrs != |names| then Err(NamesMismatch)
    else Ok(names)
  }

  function ValuesSpec(data: seq<int>, n: nat, attrs: nat, columnMajor: bool, names: seq<string>,
                      dm: Discretization.Method, log2: real -> real): Result<Dataset, DatasetError>
  {
    match ValuesNames(data, n, attrs, names)
    case Err(e) => Err(e)
    case Ok(kept) => Assemble(ValuesTemp(data, n, attrs, columnMajor), kept, dm, log2)
  }

  method FromValues(data: seq<int>, n: nat, attrs: nat, columnMajor: bool, names: seq<string>,
                    dm: Discretization.Method, log2: real -> real)
    returns (r: Result<Dataset, DatasetError>)
    ensures r == ValuesSpec(data, n, attrs, columnMajor, names, dm, log2)
  {
    if n * attrs != |data| {
      return Err(SizeMismatch);
    }
    var kept := names;
    if |names| == 0 {
      var i := 0;
      while i < attrs
        invariant 0 <= i <= attrs && kept == DefaultNames(attrs)[..i]
      {
        kept := kept + ["attr" + NatToString(i)];
        i := i + 1;
      }
      assert kept == DefaultNames(attrs);
    } else if attrs != |names| {
      return Err(NamesMismatch);
    }
    assert ValuesNames(data, n, attrs, names) == Ok(kept);
    var cells := new real[n, attrs];
    var i := 0;
    while i < n
      invariant 0 <= i <= n
      invariant forall j, b :: 0 <= j < i && 0 <= b < attrs ==> cells[j, b] == Narrowed(data, n, attrs, columnMajor, j, b)
    {
      var a := 0;
      while a < attrs
        invariant 0 <= a <= attrs
        invariant forall j, b :: 0 <= j < i && 0 <= b < attrs ==> cells[j, b] == Narrowed(data, n, attrs, columnMajor, j, b)
        invariant forall b :: 0 <= b < a ==> cells[i, b] == Narrowed(data, n, attrs, columnMajor, i, b)
      {
        if columnMajor {
          cells[i, a] := Discretization.Wrap(data[Source(n, attrs, true, i, a)]) as real;
        } else {
          cells[i, a] := Discretization.Wrap(data[Source(n, attrs, false, i, a)]) as real;
        }
        a := a + 1;
      }
      i := i + 1;
    }
    var temp := Discretization.Flatten(cells);
    ValuesTempCells(data, n, attrs, columnMajor);
    Matrix.EqualIffCellsEqual(temp, ValuesTemp(data, n, attrs, columnMajor));
    r := AssembleFrom(temp, kept, dm, log2);
  }

  /** The vector constructor never fails in discretization: narrowed
      values are whole numbers in [0, 255], which every recognized method
      keeps as they are. It throws exactly on a size or names mismatch, and
      otherwise fails only for attributes without instances; each code is the
      input value modulo 256, read in the requested storage order. */
  lemma ValuesOutcome(data: seq<int>, n: nat, attrs: nat, columnMajor: bool, names: seq<string>,
                      dm: Discretization.Method, log2: real -> real)
    requires dm != Discretization.Unrecognized
    ensures var r := ValuesSpec(data, n, attrs, columnMajor, names, dm, log2);
      (r == Err(SizeMismatch) <==> n * attrs != |data|) &&
      (r == Err(NamesMismatch) <==> n * attrs == |data| && |names| > 0 && attrs != |names|) &&
      (r == Err(NoInstances) <==>
         n * attrs == |data| && (|names| == 0 || attrs == |names|) && attrs > 0 && n == 0) &&
      (r.Ok? || r == Err(SizeMismatch) || r == Err(NamesMismatch) || r == Err(NoInstances)) &&
      (r.Ok? ==>
         Valid(r.value, log2) &&
         r.value.names == (if |names| == 0 then DefaultNames(attrs) else names) &&
         NumInstances(r.value) == n &&
         forall a, i :: 0 <= a < attrs && 0 <= i < n ==>
           Matrix.At(r.value.data, a, i) == Discretization.Wrap(data[Source(n, attrs, columnMajor, i, a)]))
  {
    var r := ValuesSpec(data, n, attrs, columnMajor, names, dm, log2);
    if n * attrs == |data| && (|names| == 0 || attrs == |names|) {
      var kept := if |names| == 0 then DefaultNames(attrs) else names;
      var temp := ValuesTemp(data, n, attrs, columnMajor);
      ValuesTempCells(data, n, attrs, columnMajor);
      forall i, a | 0 <= i < n && 0 <= a < |kept|
        ensures Matrix.At(temp, i, a) == Matrix.At(temp, i, a).Floor as real &&
          0.0 <= Matrix.At(temp, i, a) <= Discretization.CodeMax as real
      {
        var w := Discretization.Wrap(data[Source(n, attrs, columnMajor, i, a)]);
        assert Matrix.At(temp, i, a) == w as real;
      }
      Discretization.ByteValuesKept(temp, kept, dm);
      if r.Ok? {
        AssembledValid(temp, kept, dm, log2);
      }
    }
  }

  /** An unrecognized method leaves every code of a well-sized vector 0. */
  lemma ValuesUnrecognized(data: seq<int>, n: nat, attrs: nat, columnMajor: bool, names: seq<string>, log2: real -> real)
    requires n * attrs == |data| && (|names| == 0 || attrs == |names|) && (attrs > 0 ==> n > 0)
    ensures var r := ValuesSpec(data, n, attrs, columnMajor, names, Discretization.Unrecognized, log2);
      r.Ok? && r.value.data == Matrix.Create(attrs, n, 0)
  {
    var kept := if |names| == 0 then DefaultNames(attrs) else names;
    Discretization.UnrecognizedMethodGivesZeros(ValuesTemp(data, n, attrs, columnMajor), kept);
  }

  // ---------------------------------------------------------------------
  // mutual_information (include/dataset.hpp:226-255, dataset.hpp:180-207)
  // ---------------------------------------------------------------------

  /** The codes and the marginal pdfs of the two attributes compared. */
  datatype Pairing = Pairing(r1: seq<nat>, r2: seq<nat>, pdf1: seq<real>, pdf2: seq<real>)

  predicate Paired(p: Pairing) {
    |p.r1| == |p.r2| > 0
  }

  /** The same two attributes, taken in the other order. */
  function Swapped(p: Pairing): Pairing {
    Pairing(p.r2, p.r1, p.pdf2, p.pdf1)
  }

  /** The number of instances with code i in the first attribute and code j
      in the second. */
  function PairCount(r1: seq<nat>, r2: seq<nat>, i: nat, j: nat): (c: nat)
    requires |r1| == |r2|
    ensures c <= |r1|
    decreases |r1|
  {
    if |r1| == 0 then 0
    else
      PairCount(r1[..|r1| - 1], r2[..|r2| - 1], i, j) +
      (if r1[|r1| - 1] == i && r2[|r2| - 1] == j then 1 else 0)
  }

  /** The contribution `p * log2(p / (m1 * m2))` of a non-zero joint
      probability; a zero marginal cannot occur beside a non-zero joint
      probability (NonzeroJointMarginals). */
  function Term(p: real, m1: real, m2: real, log2: real -> real): real {
    if p == 0.0 || m1 * m2 == 0.0 then 0.0 else p * log2(p / (m1 * m2))
  }

  function Cell(p: Pairing, log2: real -> real, i: nat, j: nat): real
    requires Paired(p) && i < |p.pdf1| && j < |p.pdf2|
  {
    Term(PairCount(p.r1, p.r2, i, j) as real / |p.r1| as real, p.pdf1[i], p.pdf2[j], log2)
  }

  /** Cells (i, 0) .. (i, j - 1). */
  function RowTerms(p: Pairing, log2: real -> real, i: nat, j: nat): real
    requires Paired(p) && i < |p.pdf1| && j <= |p.pdf2|
    decreases j
  {
    if j == 0 then 0.0 else RowTerms(p, log2, i, j - 1) + Cell(p, log2, i, j - 1)
  }

  /** The sum the two loops accumulate over rows 0 .. i - 1, in order. */
  function Terms(p: Pairing, log2: real -> real, i: nat): real
    requires Paired(p) && i <= |p.pdf1|
    decreases i
  {
    if i == 0 then 0.0 else Terms(p, log2, i - 1) + RowTerms(p, log2, i - 1, |p.pdf2|)
  }

  /** Cells (0, j) .. (i - 1, j). */
  function ColumnTerms(p: Pairing, log2: real -> real, i: nat, j: nat): real
    requires Paired(p) && i <= |p.pdf1| && j < |p.pdf2|
    decreases i
  {
    if i == 0 then 0.0 else ColumnTerms(p, log2, i - 1, j) + Cell(p, log2, i - 1, j)
  }

  /** Rows 0 .. i - 1 of columns 0 .. j - 1, summed column by column. */
  function ColumnwiseTerms(p: Pairing, log2: real -> real, i: nat, j: nat): real
    requires Paired(p) && i <= |p.pdf1| && j <= |p.pdf2|
    decreases j
  {
    if j == 0 then 0.0 else ColumnwiseTerms(p, log2, i, j - 1) + ColumnTerms(p, log2, i, j - 1)
  }

  /** The two attributes compared. */
  function PairingOf(ds: Dataset, a1: nat, a2: nat, log2: real -> real): (p: Pairing)
    requires Valid(ds, log2) && a1 < NumAttributes(ds) && a2 < NumAttributes(ds)
    ensures Paired(p)
  {
    Pairing(Row(ds.data, a1), Row(ds.data, a2), ds.attrInfo[a1].pdf, ds.attrInfo[a2].pdf)
  }

  /** `mutual_information(attribute1, attribute2)`. */
  function MISpec(ds: Dataset, a1: nat, a2: nat, log2: real -> real): Result<real, DatasetError>
    requires Valid(ds, log2)
  {
    if a1 >= |ds.attrInfo| || a2 >= |ds.attrInfo| then Err(NoSuchAttribute)
    else
      var n1 := AttributeInformation.NumValues(ds.attrInfo[a1]);
      var n2 := AttributeInformation.NumValues(ds.attrInfo[a2]);
      if n1 == 1 || n2 == 1 then Ok(0.0)
      else Ok(Terms(PairingOf(ds, a1, a2, log2), log2, n1))
  }

  /** Each code of an attribute is below its number of values, and the
      marginal of a value is non-zero exactly when the value occurs. */
  lemma RowCodes(ds: Dataset, a: nat, log2: real -> real)
    requires Valid(ds, log2) && a < NumAttributes(ds)
    ensures var row, info := Row(ds.data, a), ds.attrInfo[a];
      |row| > 0 && info == AttributeInformation.Info(row, log2) &&
      (forall t :: 0 <= t < |row| ==> row[t] < AttributeInformation.NumValues(info)) &&
      (forall v :: 0 <= v < |info.pdf| ==> (info.pdf[v] == 0.0 <==> v !in row))
  {
    AttributeInformation.NumValuesIsLargestCodePlusOne(Row(ds.data, a), log2);
  }

  /** The flat joint bin of each instance. */
  function JointBins(r1: seq<nat>, r2: seq<nat>, n2: nat): (bins: seq<nat>)
    requires |r1| == |r2|
    ensures |bins| == |r1|
  {
    seq(|r1|, t requires 0 <= t < |r1| => r1[t] * n2 + r2[t])
  }

  /** Bin i * n2 + j counts exactly the instances with codes (i, j). */
  lemma {:induction false} BinCount(r1: seq<nat>, r2: seq<nat>, n2: nat, i: nat, j: nat)
    requires |r1| == |r2| && j < n2 && forall t :: 0 <= t < |r2| ==> r2[t] < n2
    ensures multiset(JointBins(r1, r2, n2))[i * n2 + j] == PairCount(r1, r2, i, j)
    decreases |r1|
  {
    if |r1| > 0 {
      var n := |r1| - 1;
      var x, y := r1[n], r2[n];
      BinCount(r1[..n], r2[..n], n2, i, j);
      assert JointBins(r1, r2, n2) == JointBins(r1[..n], r2[..n], n2) + [x * n2 + y];
      Matrix.DivModUnique(x * n2 + y, n2, x, y);
      Matrix.DivModUnique(i * n2 + j, n2, i, j);
    }
  }

  /** `++histogram[_data(a1, i) * a2_num_values + _data(a2, i)]` over all
      instances: bin k counts the instances whose flat joint bin is k
      (BinCount: bin i * n2 + j counts the code pair (i, j)). */
  method JointHistogram(r1: seq<nat>, r2: seq<nat>, n1: nat, n2: nat) returns (h: seq<nat>)
    requires |r1| == |r2| && forall t :: 0 <= t < |r1| ==> r1[t] < n1 && r2[t] < n2
    ensures |h| == n1 * n2
    ensures forall k :: 0 <= k < n1 * n2 ==> h[k] == multiset(JointBins(r1, r2, n2))[k]
  {
    ghost var bins := JointBins(r1, r2, n2);
    var counts := new nat[n1 * n2](_ => 0);
    var t := 0;
    while t < |r1|
      invariant 0 <= t <= |r1|
      invariant forall k :: 0 <= k < n1 * n2 ==> counts[k] == multiset(bins[..t])[k]
    {
      Matrix.CellAddress(r1[t], r2[t], n1, n2);
      var bin := r1[t] * n2 + r2[t];
      assert bins[..t + 1] == bins[..t] + [bin];
      counts[bin] := counts[bin] + 1;
      t := t + 1;
    }
    assert bins[..t] == bins;
    h := counts[..];
  }

  /** Every joint bin index `c1 * n2 + c2` is below n1 * n2. */
  lemma JointBinsInRange(r1: seq<nat>, r2: seq<nat>, n1: nat, n2: nat)
    requires |r1| == |r2| && forall t :: 0 <= t < |r1| ==> r1[t] < n1 && r2[t] < n2
    ensures forall t :: 0 <= t < |r1| ==> JointBins(r1, r2, n2)[t] < n1 * n2
  {
    forall t | 0 <= t < |r1|
      ensures JointBins(r1, r2, n2)[t] < n1 * n2
    {
      Matrix.CellAddress(r1[t], r2[t], n1, n2);
    }
  }

  /** The joint histogram counts every instance once: its total is the
      number of instances. */
  lemma HistogramTotal(r1: seq<nat>, r2: seq<nat>, n1: nat, n2: nat, h: seq<nat>)
    requires |r1| == |r2| && forall t :: 0 <= t < |r1| ==> r1[t] < n1 && r2[t] < n2
    requires |h| == n1 * n2 && forall k :: 0 <= k < n1 * n2 ==> h[k] == multiset(JointBins(r1, r2, n2))[k]
    ensures AttributeInformation.NatSum(h) == |r1|
  {
    JointBinsInRange(r1, r2, n1, n2);
    AttributeInformation.HistogramSum(JointBins(r1, r2, n2), n1 * n2, h);
  }

  /** Some instance has codes (i, j) when their count is non-zero. */
  lemma {:induction false} PairWitness(r1: seq<nat>, r2: seq<nat>, i: nat, j: nat)
    requires |r1| == |r2| && PairCount(r1, r2, i, j) > 0
    ensures i in r1 && j in r2
    decreases |r1|
  {
    var n := |r1| - 1;
    if !(r1[n] == i && r2[n] == j) {
      PairWitness(r1[..n], r2[..n], i, j);
      assert r1[..n] <= r1 && r2[..n] <= r2;
    }
  }

  lemma ProductNonzero(x: real, y: real)
    requires x != 0.0 && y != 0.0
    ensures x * y != 0.0
  {
  }

  /** A non-zero joint probability has non-zero marginals, so the source's
      `joint_probability != 0` guard is enough to keep the division
      defined. */
  lemma NonzeroJointMarginals(ds: Dataset, a1: nat, a2: nat, log2: real -> real, i: nat, j: nat)
    requires Valid(ds, log2) && a1 < NumAttributes(ds) && a2 < NumAttributes(ds)
    requires i < |ds.attrInfo[a1].pdf| && j < |ds.attrInfo[a2].pdf|
    requires PairCount(Row(ds.data, a1), Row(ds.data, a2), i, j) > 0
    ensures ds.attrInfo[a1].pdf[i] != 0.0 && ds.attrInfo[a2].pdf[j] != 0.0
    ensures ds.attrInfo[a1].pdf[i] * ds.attrInfo[a2].pdf[j] != 0.0
  {
    RowCodes(ds, a1, log2);
    RowCodes(ds, a2, log2);
    PairWitness(Row(ds.data, a1), Row(ds.data, a2), i, j);
    ProductNonzero(ds.attrInfo[a1].pdf[i], ds.attrInfo[a2].pdf[j]);
  }

  /** Every code is below the length of its pdf. */
  ghost predicate CodesBelow(p: Pairing) {
    (forall t :: 0 <= t < |p.r1| ==> p.r1[t] < |p.pdf1|) &&
    (forall t :: 0 <= t < |p.r2| ==> p.r2[t] < |p.pdf2|)
  }

  /** Code pairs that occur have non-zero marginals. */
  ghost predicate MarginalsCover(p: Pairing)
    requires Paired(p)
  {
    forall i, j :: 0 <= i < |p.pdf1| && 0 <= j < |p.pdf2| && PairCount(p.r1, p.r2, i, j) > 0 ==>
      p.pdf1[i] * p.pdf2[j] != 0.0
  }

  /** `joint_probabilities`: the histogram divided by the instance count. */
  ghost predicate JointOf(p: Pairing, joint: seq<real>)
    requires Paired(p)
  {
    |joint| == |p.pdf1| * |p.pdf2| &&
    forall k :: 0 <= k < |joint| ==> joint[k] == multiset(JointBins(p.r1, p.r2, |p.pdf2|))[k] as real / |p.r1| as real
  }

  lemma PairingFacts(ds: Dataset, a1: nat, a2: nat, log2: real -> real)
    requires Valid(ds, log2) && a1 < NumAttributes(ds) && a2 < NumAttributes(ds)
    ensures CodesBelow(PairingOf(ds, a1, a2, log2)) && MarginalsCover(PairingOf(ds, a1, a2, log2))
  {
    var p := PairingOf(ds, a1, a2, log2);
    RowCodes(ds, a1, log2);
    RowCodes(ds, a2, log2);
    forall i, j | 0 <= i < |p.pdf1| && 0 <= j < |p.pdf2| && PairCount(p.r1, p.r2, i, j) > 0
      ensures p.pdf1[i] * p.pdf2[j] != 0.0
    {
      NonzeroJointMarginals(ds, a1, a2, log2, i, j);
    }
  }

  lemma ZeroFraction(c: real, n: real)
    requires n > 0.0 && c / n != 0.0
    ensures c != 0.0
  {
  }

  /** `joint_probabilities[i * a2_num_values + j]`. */
  function JointAt(joint: seq<real>, n1: nat, n2: nat, i: nat, j: nat): real
    requires |joint| == n1 * n2 && i < n1 && j < n2
  {
    Matrix.CellAddress(i, j, n1, n2);
    joint[i * n2 + j]
  }

  /** Cell (i, j) is the term of joint probability (i, j); a non-zero
      joint probability has non-zero marginals. */
  ghost predicate CellIsTerm(p: Pairing, log2: real -> real, joint: seq<real>, i: nat, j: nat)
    requires Paired(p) && |joint| == |p.pdf1| * |p.pdf2| && i < |p.pdf1| && j < |p.pdf2|
  {
    var q := JointAt(joint, |p.pdf1|, |p.pdf2|, i, j);
    Cell(p, log2, i, j) == Term(q, p.pdf1[i], p.pdf2[j], log2) &&
    (q != 0.0 ==> p.pdf1[i] * p.pdf2[j] != 0.0)
  }

  lemma CellContribution(p: Pairing, log2: real -> real, joint: seq<real>, i: nat, j: nat)
    requires Paired(p) && CodesBelow(p) && MarginalsCover(p) && JointOf(p, joint)
    requires i < |p.pdf1| && j < |p.pdf2|
    ensures CellIsTerm(p, log2, joint, i, j)
  {
    var n1, n2 := |p.pdf1|, |p.pdf2|;
    Matrix.CellAddress(i, j, n1, n2);
    var k := i * n2 + j;
    assert joint[k] == multiset(JointBins(p.r1, p.r2, n2))[k] as real / |p.r1| as real;
    BinCount(p.r1, p.r2, n2, i, j);
    var q := joint[k];
    if q != 0.0 {
      ZeroFraction(PairCount(p.r1, p.r2, i, j) as real, |p.r1| as real);
    }
  }

  lemma TermValue(q: real, m1: real, m2: real, log2: real -> real)
    requires q != 0.0 && m1 * m2 != 0.0
    ensures Term(q, m1, m2, log2) == q * log2(q / (m1 * m2))
  {
  }

  /** The inner loop over j for row i, added to the running sum. */
  method AccumulateRow(p: Pairing, log2: real -> real, joint: seq<real>, i: nat, mi0: real) returns (mi: real)
    requires Paired(p) && |joint| == |p.pdf1| * |p.pdf2| && i < |p.pdf1|
    requires forall j :: 0 <= j < |p.pdf2| ==> CellIsTerm(p, log2, joint, i, j)
    ensures mi == mi0 + RowTerms(p, log2, i, |p.pdf2|)
  {
    var n1, n2 := |p.pdf1|, |p.pdf2|;
    mi := mi0;
    var j := 0;
    while j < n2
      invariant 0 <= j <= n2 && mi == mi0 + RowTerms(p, log2, i, j)
    {
      var q := JointAt(joint, n1, n2, i, j);
      assert CellIsTerm(p, log2, joint, i, j);
      ghost var cell := Cell(p, log2, i, j);
      assert RowTerms(p, log2, i, j + 1) == RowTerms(p, log2, i, j) + cell;
      if q != 0.0 {
        var m1, m2 := p.pdf1[i], p.pdf2[j];
        TermValue(q, m1, m2, log2);
        mi := mi + q * log2(q / (m1 * m2));
      } else {
        assert cell == 0.0;
      }
      j := j + 1;
    }
  }

  method MutualInformation(ds: Dataset, a1: nat, a2: nat, log2: real -> real) returns (r: Result<real, DatasetError>)
    requires Valid(ds, log2)
    ensures r == MISpec(ds, a1, a2, log2)
  {
    if a1 >= |ds.attrInfo| || a2 >= |ds.attrInfo| {
      return Err(NoSuchAttribute);
    }
    var info1, info2 := ds.attrInfo[a1], ds.attrInfo[a2];
    var n1, n2 := AttributeInformation.NumValues(info1), AttributeInformation.NumValues(info2);
    if n1 == 1 || n2 == 1 {
      return Ok(0.0);
    }
    var p := PairingOf(ds, a1, a2, log2);
    PairingFacts(ds, a1, a2, log2);
    var mi := PairInformation(p, log2);
    r := Ok(mi);
  }

  /** From the joint histogram on: `joint_probabilities` and the double loop. */
  method PairInformation(p: Pairing, log2: real -> real) returns (mi: real)
    requires Paired(p) && CodesBelow(p) && MarginalsCover(p)
    ensures mi == Terms(p, log2, |p.pdf1|)
  {
    var histogram := JointHistogram(p.r1, p.r2, |p.pdf1|, |p.pdf2|);
    var total := |p.r1|;
    var joint := seq(|histogram|, k requires 0 <= k < |histogram| => histogram[k] as real / total as real);
    HistogramJoint(p, histogram, joint);
    mi := SumCells(p, log2, joint);
  }

  lemma HistogramJoint(p: Pairing, h: seq<nat>, joint: seq<real>)
    requires Paired(p) && |h| == |p.pdf1| * |p.pdf2|
    requires forall k :: 0 <= k < |h| ==> h[k] == multiset(JointBins(p.r1, p.r2, |p.pdf2|))[k]
    requires |joint| == |h| && forall k :: 0 <= k < |h| ==> joint[k] == h[k] as real / |p.r1| as real
    ensures JointOf(p, joint)
  {
  }

  /** The two loops over (i, j) of `mutual_information`. */
  method SumCells(p: Pairing, log2: real -> real, joint: seq<real>) returns (mi: real)
    requires Paired(p) && CodesBelow(p) && MarginalsCover(p) && JointOf(p, joint)
    ensures mi == Terms(p, log2, |p.pdf1|)
  {
    var n1, n2 := |p.pdf1|, |p.pdf2|;
    mi := 0.0;
    var i := 0;
    while i < n1
      invariant 0 <= i <= n1 && mi == Terms(p, log2, i)
    {
      forall j | 0 <= j < n2
        ensures CellIsTerm(p, log2, joint, i, j)
      {
        CellContribution(p, log2, joint, i, j);
      }
      mi := AccumulateRow(p, log2, joint, i, mi);
      i := i + 1;
    }
  }

  // ---------------------------------------------------------------------
  // Properties of mutual information
  // ---------------------------------------------------------------------

  lemma {:induction false} PairCountSwap(r1: seq<nat>, r2: seq<nat>, i: nat, j: nat)
    requires |r1| == |r2|
    ensures PairCount(r1, r2, i, j) == PairCount(r2, r1, j, i)
    decreases |r1|
  {
    if |r1| > 0 {
      PairCountSwap(r1[..|r1| - 1], r2[..|r2| - 1], i, j);
    }
  }

  lemma CellSwap(p: Pairing, log2: real -> real, i: nat, j: nat)
    requires Paired(p) && i < |p.pdf1| && j < |p.pdf2|
    ensures Cell(p, log2, i, j) == Cell(Swapped(p), log2, j, i)
  {
    PairCountSwap(p.r1, p.r2, i, j);
    var q := PairCount(p.r1, p.r2, i, j) as real / |p.r1| as real;
    assert q == PairCount(p.r2, p.r1, j, i) as real / |p.r2| as real;
    TermSwap(q, p.pdf1[i], p.pdf2[j], log2);
  }

  lemma TermSwap(q: real, m1: real, m2: real, log2: real -> real)
    ensures Term(q, m1, m2, log2) == Term(q, m2, m1, log2)
  {
    assert m1 * m2 == m2 * m1;
  }

  /** A column of the cells is a row of the swapped cells. */
  lemma {:induction false} ColumnIsSwappedRow(p: Pairing, log2: real -> real, i: nat, j: nat)
    requires Paired(p) && i <= |p.pdf1| && j < |p.pdf2|
    ensures ColumnTerms(p, log2, i, j) == RowTerms(Swapped(p), log2, j, i)
    decreases i
  {
    if i > 0 {
      ColumnIsSwappedRow(p, log2, i - 1, j);
      CellSwap(p, log2, i - 1, j);
    }
  }

  lemma {:induction false} ColumnwiseIsSwapped(p: Pairing, log2: real -> real, j: nat)
    requires Paired(p) && j <= |p.pdf2|
    ensures ColumnwiseTerms(p, log2, |p.pdf1|, j) == Terms(Swapped(p), log2, j)
    decreases j
  {
    if j > 0 {
      ColumnwiseIsSwapped(p, log2, j - 1);
      ColumnIsSwappedRow(p, log2, |p.pdf1|, j - 1);
    }
  }

  /** Adding row i to the column sums adds its row sum. */
  lemma {:induction false} AddRow(p: Pairing, log2: real -> real, i: nat, j: nat)
    requires Paired(p) && i < |p.pdf1| && j <= |p.pdf2|
    ensures ColumnwiseTerms(p, log2, i + 1, j) == ColumnwiseTerms(p, log2, i, j) + RowTerms(p, log2, i, j)
    decreases j
  {
    if j > 0 {
      AddRow(p, log2, i, j - 1);
    }
  }

  /** Summing row by row equals summing column by column. */
  lemma {:induction false} RowsThenColumns(p: Pairing, log2: real -> real, i: nat)
    requires Paired(p) && i <= |p.pdf1|
    ensures Terms(p, log2, i) == ColumnwiseTerms(p, log2, i, |p.pdf2|)
    decreases i
  {
    if i == 0 {
      ColumnwiseZero(p, log2, |p.pdf2|);
    } else {
      RowsThenColumns(p, log2, i - 1);
      AddRow(p, log2, i - 1, |p.pdf2|);
    }
  }

  lemma {:induction false} ColumnwiseZero(p: Pairing, log2: real -> real, j: nat)
    requires Paired(p) && j <= |p.pdf2|
    ensures ColumnwiseTerms(p, log2, 0, j) == 0.0
    decreases j
  {
    if j > 0 {
      ColumnwiseZero(p, log2, j - 1);
    }
  }

  /** Mutual information does not depend on the order of the two
      attributes. */
  lemma MutualInformationSymmetric(ds: Dataset, a1: nat, a2: nat, log2: real -> real)
    requires Valid(ds, log2)
    ensures MISpec(ds, a1, a2, log2) == MISpec(ds, a2, a1, log2)
  {
    if a1 < |ds.attrInfo| && a2 < |ds.attrInfo| {
      var p := PairingOf(ds, a1, a2, log2);
      assert Swapped(p) == PairingOf(ds, a2, a1, log2);
      RowsThenColumns(p, log2, |p.pdf1|);
      ColumnwiseIsSwapped(p, log2, |p.pdf2|);
    }
  }

  lemma {:induction false} PairCountAbsent(r1: seq<nat>, r2: seq<nat>, i: nat, j: nat)
    requires |r1| == |r2| && i !in r1
    ensures PairCount(r1, r2, i, j) == 0
    decreases |r1|
  {
    if |r1| > 0 {
      assert r1[..|r1| - 1] <= r1;
      PairCountAbsent(r1[..|r1| - 1], r2[..|r2| - 1], i, j);
    }
  }

  /** Against a constant first attribute, pair counts are the counts of the
      second. */
  lemma {:induction false} PairCountConstant(r1: seq<nat>, r2: seq<nat>, c: nat, j: nat)
    requires |r1| == |r2| && forall t :: 0 <= t < |r1| ==> r1[t] == c
    ensures PairCount(r1, r2, c, j) == multiset(r2)[j]
    ensures multiset(r1)[c] == |r1|
    decreases |r1|
  {
    if |r1| > 0 {
      var n := |r1| - 1;
      PairCountConstant(r1[..n], r2[..n], c, j);
      assert r1 == r1[..n] + [r1[n]] && r2 == r2[..n] + [r2[n]];
    }
  }

  lemma CrossTermZero(q: real, log2: real -> real)
    requires log2(1.0) == 0.0
    ensures Term(q, 1.0, q, log2) == 0.0
  {
    if q != 0.0 {
      assert q / (1.0 * q) == 1.0;
    }
  }

  lemma {:induction false} ZeroRow(p: Pairing, log2: real -> real, i: nat, j: nat)
    requires Paired(p) && i < |p.pdf1| && j <= |p.pdf2|
    requires forall k :: 0 <= k < |p.pdf2| ==> Cell(p, log2, i, k) == 0.0
    ensures RowTerms(p, log2, i, j) == 0.0
    decreases j
  {
    if j > 0 {
      ZeroRow(p, log2, i, j - 1);
    }
  }

  lemma {:induction false} ZeroRows(p: Pairing, log2: real -> real, i: nat)
    requires Paired(p) && i <= |p.pdf1|
    requires forall k, l :: 0 <= k < |p.pdf1| && 0 <= l < |p.pdf2| ==> Cell(p, log2, k, l) == 0.0
    ensures Terms(p, log2, i) == 0.0
    decreases i
  {
    if i > 0 {
      ZeroRows(p, log2, i - 1);
      ZeroRow(p, log2, i - 1, |p.pdf2|);
    }
  }

  /** An attribute whose instances all share one code carries no
      information about any other attribute, in either order, whether or
      not the early return for a single value applies (it applies only when
      that code is 0). */
  lemma ConstantAttributeNoInformation(ds: Dataset, a1: nat, a2: nat, log2: real -> real)
    requires Valid(ds, log2) && a1 < NumAttributes(ds) && a2 < NumAttributes(ds) && log2(1.0) == 0.0
    requires forall t, u :: 0 <= t < NumInstances(ds) && 0 <= u < NumInstances(ds) ==>
      Row(ds.data, a1)[t] == Row(ds.data, a1)[u]
    ensures MISpec(ds, a1, a2, log2) == Ok(0.0) && MISpec(ds, a2, a1, log2) == Ok(0.0)
  {
    MutualInformationSymmetric(ds, a1, a2, log2);
    var p := PairingOf(ds, a1, a2, log2);
    var r1, r2 := p.r1, p.r2;
    var c := r1[0];
    RowCodes(ds, a1, log2);
    RowCodes(ds, a2, log2);
    forall i, j | 0 <= i < |p.pdf1| && 0 <= j < |p.pdf2|
      ensures Cell(p, log2, i, j) == 0.0
    {
      PairCountConstant(r1, r2, c, j);
      if i != c {
        PairCountAbsent(r1, r2, i, j);
      } else {
        AttributeInformation.SelfRatio(|r1| as real);
        assert p.pdf1[i] == 1.0;
        CrossTermZero(p.pdf2[j], log2);
      }
    }
    ZeroRows(p, log2, |p.pdf1|);
  }

  // ---------------------------------------------------------------------
  // operator<< (include/dataset.hpp:257-268, dataset.hpp:209-220)
  // ---------------------------------------------------------------------

  /** The header line without its newline: the names joined by tabs. */
  function Join(names: seq<string>): string
    requires |names| > 0
    decreases |names|
  {
    if |names| == 1 then names[0] else Join(names[..|names| - 1]) + [Delimiter] + names[|names| - 1]
  }

  /** The fields of a line between tabs. */
  function Split(line: string): (fields: seq<string>)
    ensures |fields| > 0
    decreases |line|
  {
    if |line| == 0 then [""]
    else
      var rest := Split(line[..|line| - 1]);
      if line[|line| - 1] == Delimiter then rest + [""]
      else rest[..|rest| - 1] + [rest[|rest| - 1] + [line[|line| - 1]]]
  }

  predicate TabFree(name: string) {
    Delimiter !in name
  }

  lemma {:induction false} SplitField(prefix: string, name: string)
    requires TabFree(name) && |Split(prefix)| > 0
    ensures Split(prefix + name) == Split(prefix)[..|Split(prefix)| - 1] + [Split(prefix)[|Split(prefix)| - 1] + name]
    decreases |name|
  {
    if |name| == 0 {
      var sp := Split(prefix);
      assert prefix + name == prefix;
      assert sp[|sp| - 1] + name == sp[|sp| - 1];
      assert sp == sp[..|sp| - 1] + [sp[|sp| - 1]];
    } else {
      var n := |name| - 1;
      var c := name[n];
      assert TabFree(name[..n]);
      SplitField(prefix, name[..n]);
      assert prefix + name == (prefix + name[..n]) + [c];
      SplitStep(prefix + name[..n], c);
      AppendToLast(Split(prefix), name[..n], c);
      assert name[..n] + [c] == name;
    }
  }

  /** A character other than a tab extends the last field. */
  lemma SplitStep(line: string, c: char)
    requires c != Delimiter
    ensures var sp := Split(line); Split(line + [c]) == sp[..|sp| - 1] + [sp[|sp| - 1] + [c]]
  {
    assert (line + [c])[..|line|] == line;
  }

  lemma AppendToLast(fields: seq<string>, u: string, c: char)
    requires |fields| > 0
    ensures var r := fields[..|fields| - 1] + [fields[|fields| - 1] + u];
      r[..|r| - 1] + [r[|r| - 1] + [c]] == fields[..|fields| - 1] + [fields[|fields| - 1] + (u + [c])]
  {
    var r := fields[..|fields| - 1] + [fields[|fields| - 1] + u];
    assert r[..|r| - 1] == fields[..|fields| - 1];
    assert r[|r| - 1] + [c] == fields[|fields| - 1] + (u + [c]);
  }

  /** A field has no tab, so splitting the joined names gives them back. */
  lemma {:induction false} SplitJoin(names: seq<string>)
    requires |names| > 0 && forall k :: 0 <= k < |names| ==> TabFree(names[k])
    ensures Split(Join(names)) == names
    decreases |names|
  {
    var last := names[|names| - 1];
    if |names| == 1 {
      SplitField("", last);
      assert "" + last == last;
    } else {
      var init := names[..|names| - 1];
      SplitJoin(init);
      assert names == init + [last];
      SplitJoinStep(init, last);
    }
  }

  lemma SplitJoinStep(init: seq<string>, last: string)
    requires |init| > 0 && TabFree(last) && Split(Join(init)) == init
    ensures Split(Join(init + [last])) == init + [last]
  {
    var prefix := Join(init) + [Delimiter];
    SplitTab(Join(init));
    SplitField(prefix, last);
    FillEmptyLast(init, last);
    JoinLast(init, last);
  }

  lemma JoinLast(init: seq<string>, last: string)
    requires |init| > 0
    ensures Join(init + [last]) == Join(init) + [Delimiter] + last
  {
    assert (init + [last])[..|init|] == init;
  }

  /** A tab opens a new, empty field. */
  lemma SplitTab(line: string)
    ensures Split(line + [Delimiter]) == Split(line) + [""]
  {
    assert (line + [Delimiter])[..|line|] == line;
  }

  lemma FillEmptyLast(init: seq<string>, last: string)
    ensures var fields := init + [""]; fields[..|init|] + [fields[|init|] + last] == init + [last]
  {
    var fields := init + [""];
    assert fields[..|init|] == init;
    assert fields[|init|] + last == last;
  }

  /** What `os << dataset` writes: the header line and the instance-major
      code matrix, or nothing for a dataset without attributes. */
  function WriteSpec(ds: Dataset): (out: (string, seq<Matrix.Token<nat>>))
    requires ds.data.Valid() && ds.data.rows == |ds.names|
  {
    if |ds.names| == 0 then ("", [])
    else (Join(ds.names) + "\n", Matrix.SerialForm(Matrix.Transpose(ds.data)))
  }

  method Write(ds: Dataset) returns (header: string, body: seq<Matrix.Token<nat>>)
    requires ds.data.Valid() && ds.data.rows == |ds.names| && (|ds.names| > 0 ==> ds.data.cols > 0)
    ensures (header, body) == WriteSpec(ds)
  {
    header, body := "", [];
    if |ds.names| > 0 {
      header := ds.names[0];
      var i := 1;
      while i < |ds.names|
        invariant 1 <= i <= |ds.names| && header == Join(ds.names[..i])
      {
        assert ds.names[..i + 1][..i] == ds.names[..i];
        header := header + [Delimiter] + ds.names[i];
        i := i + 1;
      }
      assert ds.names[..i] == ds.names;
      header := header + "\n";
      body := Matrix.Write(Matrix.Transpose(ds.data));
    }
  }

  // ---------------------------------------------------------------------
  // Writing and reading back (tests.cpp:66-72)
  // ---------------------------------------------------------------------

  /** Codes printed as unsigned integers and read back as doubles. */
  function Printed(toks: seq<Matrix.Token<nat>>): (out: seq<Matrix.Token<real>>)
    ensures |out| == |toks|
  {
    seq(|toks|, k requires 0 <= k < |toks| => Matrix.Token(toks[k].value as real, toks[k].sep))
  }

  function AsReals(m: Matrix.Matrix<nat>): (r: Matrix.Matrix<real>)
    requires m.Valid()
    ensures r.Valid() && r.rows == m.rows && r.cols == m.cols
  {
    Matrix.Matrix(m.rows, m.cols, seq(|m.data|, k requires 0 <= k < |m.data| => m.data[k] as real))
  }

  lemma PrintedSerialForm(m: Matrix.Matrix<nat>)
    requires m.Valid()
    ensures Printed(Matrix.SerialForm(m)) == Matrix.SerialForm(AsReals(m))
  {
    var a, b := Printed(Matrix.SerialForm(m)), Matrix.SerialForm(AsReals(m));
    forall k | 0 <= k < |a|
      ensures a[k] == b[k]
    {
      Matrix.FlatCell(k, m.rows, m.cols);
    }
  }

  /** The printed codes, read back as reals, are the transposed codes, each
      a whole number within the byte range. */
  lemma PrintedCells(ds: Dataset, log2: real -> real)
    requires Valid(ds, log2)
    ensures var temp := AsReals(Matrix.Transpose(ds.data));
      forall i, a | 0 <= i < temp.rows && 0 <= a < |ds.names| ::
        Matrix.At(temp, i, a) == Matrix.At(ds.data, a, i) as real &&
        Matrix.At(temp, i, a) == Matrix.At(temp, i, a).Floor as real &&
        0.0 <= Matrix.At(temp, i, a) <= Discretization.CodeMax as real
  {
    var m := ds.data;
    var t := Matrix.Transpose(m);
    var temp := AsReals(t);
    Matrix.TransposeCells(m);
    forall i, a | 0 <= i < temp.rows && 0 <= a < |ds.names|
      ensures Matrix.At(temp, i, a) == Matrix.At(m, a, i) as real
      ensures Matrix.At(temp, i, a) == Matrix.At(temp, i, a).Floor as real &&
        0.0 <= Matrix.At(temp, i, a) <= Discretization.CodeMax as real
    {
      Matrix.AtIsFlatCell(temp, i, a);
      Matrix.AtIsFlatCell(t, i, a);
      Matrix.AtIsFlatCell(m, a, i);
    }
  }

  /** Writing a dataset and reading the text back with any recognized method
      rebuilds the same dataset: the codes are whole numbers in [0, 255], so
      discretization keeps them and no translation applies. With tab-free
      names the header line, split at its tabs, gives the names back. At
      least one attribute is needed: with none the writer prints no header
      line at all (include/dataset.hpp:259-264) and the reader stops at the
      missing header newline. */
  lemma TextRoundTrip(ds: Dataset, dm: Discretization.Method, log2: real -> real)
    requires Valid(ds, log2) && NumAttributes(ds) >= 1 && dm != Discretization.Unrecognized
    ensures WriteSpec(ds).0 == Join(ds.names) + "\n"
    ensures StreamSpec(ds.names, true, Printed(WriteSpec(ds).1), dm, log2) == Ok(ds)
    ensures (forall k :: 0 <= k < |ds.names| ==> TabFree(ds.names[k])) ==>
      var line := WriteSpec(ds).0;
      StreamSpec(Split(line[..|line| - 1]), true, Printed(WriteSpec(ds).1), dm, log2) == Ok(ds)
  {
    var m := ds.data;
    var t := Matrix.Transpose(m);
    var temp := AsReals(t);
    PrintedSerialForm(t);
    Matrix.RoundTrip(temp, 0.0);
    assert Matrix.Parse(Printed(WriteSpec(ds).1), 0.0) == Ok(temp);
    PrintedCells(ds, log2);
    Discretization.ByteValuesKept(temp, ds.names, dm);
    var codes := Discretization.DiscretizeSpec(temp, ds.names, dm).value;
    Matrix.EqualIffCellsEqual(codes, m);
    var line := WriteSpec(ds).0;
    assert line[..|line| - 1] == Join(ds.names);
    if forall k :: 0 <= k < |ds.names| ==> TabFree(ds.names[k]) {
      SplitJoin(ds.names);
    }
  }

  // ---------------------------------------------------------------------
  // A code of 255 (attribute_information.hpp:50-54)
  // ---------------------------------------------------------------------

  /** One attribute, two instances with the values 0 and 255. */
  const WideColumn: Matrix.Matrix<real> := Matrix.Matrix(2, 1, [0.0, 255.0])

  /** Both discretization checks pass (the range is exactly 255) and the
      codes are 0 and 255. */
  lemma WideColumnCodes()
    ensures WideColumn.Valid()
    ensures Discretization.DiscretizeSpec(WideColumn, ["x"], Discretization.Round).Ok?
    ensures var m := Discretization.DiscretizeSpec(WideColumn, ["x"], Discretization.Round).value;
      m.Valid() && m.rows == 1 && m.cols == 2 && Matrix.At(m, 0, 0) == 0 && Matrix.At(m, 0, 1) == 255
  {
    WideColumnCells();
    Discretization.ByteValuesKept(WideColumn, ["x"], Discretization.Round);
  }

  lemma WideColumnCells()
    ensures WideColumn.Valid() && Matrix.At(WideColumn, 0, 0) == 0.0 && Matrix.At(WideColumn, 1, 0) == 255.0
  {
  }

  /** Codes that pass discretization make a dataset once there is an
      instance. */
  lemma Accepted(temp: Matrix.Matrix<real>, names: seq<string>, dm: Discretization.Method, log2: real -> real)
    requires temp.Valid() && temp.rows > 0 && Discretization.DiscretizeSpec(temp, names, dm).Ok?
    ensures Assemble(temp, names, dm, log2).Ok?
    ensures Assemble(temp, names, dm, log2).value.data == Discretization.DiscretizeSpec(temp, names, dm).value
  {
  }

  /** The code 255 of this column has no counter in a histogram of 255
      counters. */
  lemma Code255Reachable()
    ensures WideColumn.Valid()
    ensures Discretization.DiscretizeSpec(WideColumn, ["x"], Discretization.Round).Ok?
    ensures var m := Discretization.DiscretizeSpec(WideColumn, ["x"], Discretization.Round).value;
      m.Valid() && m.rows == 1 && Row(m, 0) == [0, 255] &&
      !(forall k :: 0 <= k < |Row(m, 0)| ==> Row(m, 0)[k] < AttributeInformation.CodeMax)
  {
    WideColumnCodes();
    TwoCodes(Discretization.DiscretizeSpec(WideColumn, ["x"], Discretization.Round).value);
  }

  lemma TwoCodes(m: Matrix.Matrix<nat>)
    requires m.Valid() && m.rows == 1 && m.cols == 2 && Matrix.At(m, 0, 0) == 0 && Matrix.At(m, 0, 1) == 255
    ensures Row(m, 0) == [0, 255]
    ensures !(forall k :: 0 <= k < |Row(m, 0)| ==> Row(m, 0)[k] < AttributeInformation.CodeMax)
  {
    RowCells(m, 0);
    assert Row(m, 0)[1] == 255;
  }

  /** ... and the dataset accepts the column with those codes. */
  lemma WideColumnAccepted(log2: real -> real)
    ensures WideColumn.Valid()
    ensures Assemble(WideColumn, ["x"], Discretization.Round, log2).Ok?
    ensures Assemble(WideColumn, ["x"], Discretization.Round, log2).value.data ==
      Discretization.DiscretizeSpec(WideColumn, ["x"], Discretization.Round).value
  {
    WideColumnCodes();
    Accepted(WideColumn, ["x"], Discretization.Round, log2);
  }
}
