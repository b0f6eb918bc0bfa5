# mRMR feature ranking, modelled in Dafny

This project models the core of an mRMR feature ranker; mRMR stands for
*minimum Redundancy, Maximum Relevance*. The ranker reads a tab-separated
dataset whose first line holds attribute names. It discretizes each
real-valued column into unsigned-char codes and keeps a histogram-based
distribution and an entropy per attribute. It then ranks every attribute
against a chosen class attribute:

- rank 0 is the class itself;
- rank 1 is the attribute of greatest mutual information with the class;
- each later rank takes the attribute whose relevance minus mean redundancy
  with the attributes already ranked is largest;
- the attributes without positive entropy come last.

The modules follow the program's files:

| module | file | what it models |
|---|---|---|
| `Wrappers` | — | `Result` and `Option` |
| `Floats` | — | the doubles that matter here: finite values, `-infinity` and `NaN`, with the `<` that `std::max_element` uses |
| `Matrix` | matrix.hpp | the row-major `matrix<T>`: construction, `operator()`, `transpose`, `operator==`, the writer, and the reader with its growing buffer |
| `AttributeInformation` | attribute_information.hpp | the histogram, the backward scan, the pdf, the entropy, `num_values` and `marginal_probability` |
| `Discretization` | include/dataset.hpp, dataset.hpp | `transpose_and_discretize`: rounding, the overflow check, minima and maxima starting at 0, the range check, and the translation in unsigned-char arithmetic; the loops work on a two-dimensional `array2` |
| `Dataset` | include/dataset.hpp, dataset.hpp | both constructors, `compute_attribute_information`, `mutual_information` and `operator<<`; dataset.hpp is the earlier single-constructor version with the same semantics |
| `Mrmr` | include/mrmr.hpp | `mrmr(data, class)` as an imperative method, `Mrmr.Rank`, proved equal to a functional specification `RankSpec`, plus the properties of that specification |
| `MrmrMain` | mrmr.cpp | `main` after option parsing: read the dataset, then either write it back (`-w`) or print the ranking |

State that the source updates step by step is modelled imperatively:

- the reader's growing buffer, as an `array`;
- the discretization buffers, as `array2` and `array`;
- the histogram counters;
- the `mutual_informations` and `redundance` vectors of `mrmr`, as arrays;
- the `unselected` forward list and the result vectors, as `seq` locals the methods reassign.

Each such method is proved against a function of its inputs. The properties
the program promises are lemmas about those functions.

Reals are exact. The base-2 logarithm is a parameter `log2`. Where a
property needs more of it, the lemma requires `log2(1) == 0`, or requires
`log2` to be negative on (0, 1) (`AttributeInformation.LogLike`).

## Model

| member | source | states |
|---|---|---|
| Matrix.CellAddress | matrix.hpp:74-85 | cell (r, c) of an R x C matrix lives at flat position r * C + c, which lies inside the buffer and gives back r and c, so distinct cells never share a position |
| Matrix.Create | matrix.hpp:55-57 | the two-argument constructor builds an R x C matrix that satisfies the shape invariant |
| Matrix.CreateCells | matrix.hpp:51-57 | every cell of a freshly constructed matrix is value-initialised |
| Matrix.CreateFilled | matrix.hpp:59-61 | the three-argument constructor ignores its value and equals the two-argument one |
| Matrix.Transpose | matrix.hpp:87-94 | the transpose of an R x C matrix is a valid C x R matrix |
| Matrix.TransposeCells | matrix.hpp:87-94 | cell (c, r) of the transpose is cell (r, c) of the original |
| Matrix.TransposeTwice | matrix.hpp:87-94 | transposing twice gives back the matrix |
| Matrix.Equal | matrix.hpp:96-108 | `==` holds exactly when shape and contents are equal |
| Matrix.EqualIffCellsEqual | matrix.hpp:96-108 | `==` holds iff both dimensions match and every cell (r, c) matches |
| Matrix.SerialFormCells | matrix.hpp:110-123 | the writer emits cell (r, c) at position r * cols + c, followed by a tab, or a newline at the end of the row |
| Matrix.Write | matrix.hpp:110-123 | the writing loop produces exactly that serial form |
| Matrix.StepIndex | matrix.hpp:136-151 | the write position (rows - 1) * cols + column_num is the number of cells read so far; after growth it lies inside the buffer, which never shrinks |
| Matrix.Step | matrix.hpp:133-167 | one iteration stores exactly one more cell and keeps the reader well formed |
| Matrix.GrowBuffer | matrix.hpp:142-151 | the replacement buffer has the new size and the old cells at its front |
| Matrix.PlaceValue | matrix.hpp:142-152 | the value lands at the write position, in the grown replacement buffer when the position is past the end, exactly where the reader specification places it |
| Matrix.ReadToken | matrix.hpp:134-166 | one pass of the loop is one step of the reader specification: the new row, column count and column number with the stored value, or the error for a column out of range, an inconsistent row or an invalid separator |
| Matrix.ReadCells | matrix.hpp:126-168 | the reading loop with its array buffer computes the reader specification over the tokens |
| Matrix.Read | matrix.hpp:125-176 | `is >> m` with the as-written final trim; the loop reads at least once, so an empty input is the failed read at line 1, never an empty matrix |
| Matrix.ReadFitted | matrix.hpp:125-176 | `is >> m` with the corrected trim always returns a matrix that satisfies its shape invariant; an empty input is the failed read at line 1, as in the as-written reader |
| Matrix.StepContents | matrix.hpp:142-152 | one step stores the value at the write position, keeps every earlier cell and leaves the rest value-initialised |
| Matrix.RunContents | matrix.hpp:132-168 | after any run the cells read are exactly the token values in order, and the rest of the buffer is value-initialised |
| Matrix.FirstRow | matrix.hpp:136-158 | the first line fixes the column count to its number of values |
| Matrix.LaterRow | matrix.hpp:136-158 | a later line of the same width adds one row and keeps the column count |
| Matrix.RoundTrip | tests.cpp:53-61 | reading the serialisation of any matrix with at least one row and one column gives back an equal matrix, with either trim (values are tokens, so this holds for the values the writer prints exactly) |
| Matrix.ShortRowRejected | matrix.hpp:156-162 | a later row with fewer values aborts with "inconsistent number of columns" at that row |
| Matrix.LongRowRejected | matrix.hpp:81-84 | a later row with more values fails the column assert of `m(r, c)` at that row |
| Matrix.BadSeparatorRejected | matrix.hpp:163-166 | any separator other than tab or newline, end of input included, aborts with "invalid value" at the current line |
| Matrix.MissingNewlineRejected | matrix.hpp:153-166 | a last line without its newline aborts with "invalid value" |
| Matrix.EmptyBodyRejected | matrix.hpp:133-166 | an empty input is not a 0 x 0 matrix: the one read `while (!is.eof())` makes fails and both trims report "invalid value" at line 1 |
| Matrix.TrailingTabLeavesShortBuffer | matrix.hpp:169-174 | as written, a concrete input yields a 2 x 200 matrix over only 256 cells |
| Matrix.FittedParse | matrix.hpp:169-174 | with the corrected trim every parsed matrix is valid, it succeeds exactly when the as-written one does, and it agrees with it whenever that one is valid |
| AttributeInformation.Histogram | attribute_information.hpp:50-54 | counter v holds the number of occurrences of code v |
| AttributeInformation.LastPopulated | attribute_information.hpp:56-60 | the backward scan stops one past the last populated counter, and every counter after it is empty |
| AttributeInformation.Build | attribute_information.hpp:43-67 | the constructor over any sufficient number of counters computes the specified pdf and entropy |
| AttributeInformation.NewAsWritten | attribute_information.hpp:43-67 | the constructor as written, with 255 counters, needs every code to be below 255 |
| AttributeInformation.New | attribute_information.hpp:43-67 | the corrected constructor accepts every unsigned-char code, 0..255 |
| AttributeInformation.HistogramSum | attribute_information.hpp:50-54 | the counters of a histogram add up to the number of codes |
| AttributeInformation.NumValuesIsLargestCodePlusOne | attribute_information.hpp:56-72 | `num_values()` is the largest code plus one; a marginal is 0 exactly for a code that never occurs; the last one is positive |
| AttributeInformation.MarginalIsFrequency | attribute_information.hpp:79-84 | `marginal_probability(k)` of the object built from the codes is the number of occurrences of k over the number of rows |
| AttributeInformation.PdfSumsToOne | attribute_information.hpp:61-63 | the pdf sums to 1 |
| AttributeInformation.TestCodes | tests.cpp:39-43 | the test column has three values with marginals 5/16, 7/16 and 4/16 |
| AttributeInformation.InteriorMarginals | attribute_information.hpp:61-63 | with two or more values and no gap, every marginal lies strictly between 0 and 1 |
| AttributeInformation.SingleValueEntropy | attribute_information.hpp:66 | a constant all-zero attribute has pdf [1] and entropy exactly 0 |
| AttributeInformation.EntropyCases | attribute_information.hpp:66 | the entropy is NaN iff some code below the largest never occurs; 0 iff there is one value; positive iff there are at least two values and no gap |
| Discretization.RoundingBounds | include/dataset.hpp:85-101 | each rounding method rounds in its own direction by less than 1 (half away from zero for round) and keeps integers |
| Discretization.DiscretizeRow | include/dataset.hpp:83-113 | one pass over an instance stores every value, folds it into the minimum and maximum, and stops at the first fault the specification names |
| Discretization.DiscretizeCell | include/dataset.hpp:84-112 | one attribute of an instance reports the first fault from that cell on, or advances that attribute's minimum, maximum and stored code and changes nothing else |
| Discretization.DiscretizeCells | include/dataset.hpp:79-115 | the discretizing loops report exactly the first fault in row-major order; otherwise every cell is stored and the minima and maxima are those of the columns |
| Discretization.CheckRanges | include/dataset.hpp:117-123 | the range check reports the first attribute whose range exceeds 255 |
| Discretization.TranslateAttribute | include/dataset.hpp:127-131 | one attribute's codes are shifted by the wrapped negated minimum, and no other attribute changes |
| Discretization.Translate | include/dataset.hpp:125-132 | after translation every cell holds its specified code |
| Discretization.TransposeAndDiscretize | include/dataset.hpp:69-134 | the whole procedure computes the discretization specification |
| Discretization.ColMinIsMinWithZero | include/dataset.hpp:106-108 | the per-attribute minimum is at most 0 and at most every value, and is 0 or one of the values |
| Discretization.ColMaxIsMaxWithZero | include/dataset.hpp:109-111 | the per-attribute maximum is at least 0 and at least every value, and is 0 or one of the values |
| Discretization.TranslatedCodes | include/dataset.hpp:125-132 | when both checks pass, code (a, i) is the value minus min(0, the attribute's smallest value) and lies in [0, 255] |
| Discretization.UnrecognizedMethodGivesZeros | include/dataset.hpp:79-115 | an unrecognized method skips the loops: nothing fails and every code is 0 |
| Discretization.OverflowReported | include/dataset.hpp:102-105 | overflow is reported at line i + 2, column a + 1 iff (i, a) is the first cell in row-major order whose magnitude exceeds 255 |
| Discretization.TooFewColumnsReported | include/dataset.hpp:82-99 | the data having fewer columns than the header has names is reported iff the first row is read past its end after all its cells fit |
| Discretization.UnrepresentableReported | include/dataset.hpp:117-123 | an attribute is reported unrepresentable only when its range exceeds 255 |
| Discretization.UnrepresentableFirstReported | include/dataset.hpp:117-123 | conversely, when no cell faults and attribute b is the first whose range exceeds 255, construction fails naming attribute b |
| Discretization.ExtraColumnsIgnored | include/dataset.hpp:82-83 | data columns beyond the named attributes never influence the outcome |
| Discretization.ByteValuesKept | include/dataset.hpp:85-132 | whole values in [0, 255] pass every recognized method unchanged, untranslated |
| Dataset.ComputeAttributeInformation | include/dataset.hpp:136-145 | one attribute_information per attribute, built from that attribute's codes |
| Dataset.AssembleFrom | dataset.hpp:89-157 | discretization followed by the attribute information (inline in the earlier file) computes the shared specification |
| Dataset.DiscretizedCodesFit | include/dataset.hpp:125-132 | discretized codes form an attributes x instances matrix of unsigned chars |
| Dataset.AssembledValid | include/dataset.hpp:171-173 | every dataset a constructor builds satisfies the class invariant |
| Dataset.FromStream | include/dataset.hpp:151-174 | the stream constructor: a missing header newline, a malformed matrix (an empty body included) or a discretization fault is an error; otherwise the dataset of the header names and the parsed data |
| Dataset.EmptyBodyMalformed | include/dataset.hpp:151-174 | a header line with no data after it fails in the matrix reader with "invalid value" at line 1, not as a dataset without instances |
| Dataset.DecimalRoundTrip | include/dataset.hpp:184 | `std::to_string` of a number reads back as that number |
| Dataset.DefaultNamesDistinct | include/dataset.hpp:182-185 | the default names attr0, attr1, ... are pairwise distinct |
| Dataset.FromValues | include/dataset.hpp:176-204 | the vector constructor's loops compute its specification |
| Dataset.ValuesOutcome | include/dataset.hpp:178-203 | the vector constructor throws exactly on a size or names mismatch and otherwise fails only without instances; each code is the input value modulo 256, in the chosen storage order; unnamed attributes get the default names |
| Dataset.ValuesUnrecognized | include/dataset.hpp:189-203 | with an unrecognized method every code of a well-sized vector is 0 |
| Dataset.RowCodes | include/dataset.hpp:141-143 | each code of an attribute is below its number of values, and a marginal is non-zero exactly when the code occurs |
| Dataset.BinCount | include/dataset.hpp:234-236 | joint bin i * n2 + j counts exactly the instances with codes (i, j) |
| Dataset.JointHistogram | include/dataset.hpp:233-236 | the joint histogram loop fills bin k with the number of instances whose joint bin is k |
| Dataset.JointBinsInRange | include/dataset.hpp:235 | every joint bin index c1 * n2 + c2 is below n1 * n2 |
| Dataset.HistogramTotal | include/dataset.hpp:233-241 | the joint histogram adds up to the number of instances |
| Dataset.NonzeroJointMarginals | include/dataset.hpp:246-250 | a non-zero joint probability has non-zero marginals, so the guarded division is defined |
| Dataset.MutualInformation | include/dataset.hpp:226-255 | the two loops compute the specified sum of p * log2(p / (m1 * m2)) over the non-zero joint cells, with the early return for a single-valued attribute and the error for a missing one |
| Dataset.PairInformation | include/dataset.hpp:233-253 | from the joint histogram on, the result is the specified sum of terms over every value pair |
| Dataset.SumCells | include/dataset.hpp:243-253 | the double loop over the joint probabilities adds up exactly the specified term of every non-zero cell |
| Dataset.MutualInformationSymmetric | dataset.hpp:180-207 | mutual information does not depend on the order of the two attributes |
| Dataset.ConstantAttributeNoInformation | include/dataset.hpp:228-232 | an attribute with a single code has mutual information 0 with every attribute, in either order, whether or not the early return applies |
| Dataset.SplitJoin | include/dataset.hpp:259-264 | the tab-joined header of tab-free names splits back into the names |
| Dataset.Write | include/dataset.hpp:257-268 | the writer prints the header line and the instance-major codes, or nothing without attributes |
| Dataset.TextRoundTrip | tests.cpp:65-72 | writing a dataset with at least one attribute and reading it back with any recognized method rebuilds the same dataset, with the names given directly or, when they are tab-free, split from the written header line |
| Dataset.WideColumnCodes | include/dataset.hpp:102-131 | a column holding 0 and 255 passes both checks and gets the codes 0 and 255 |
| Dataset.Code255Reachable | attribute_information.hpp:50-52 | the code 255 reaches attribute_information, where the as-written histogram has no counter for it |
| Dataset.WideColumnAccepted | include/dataset.hpp:171-173 | the dataset constructor accepts that column |
| Mrmr.Prerequisites | include/mrmr.hpp:58-75 | the prerequisites loop builds the relevance vector with -infinity at the class, the zeroed redundance, the ascending pool and the useless vector |
| Mrmr.ScanAttributes | include/mrmr.hpp:63-73 | every non-class attribute gets its relevance (mutual information with the class, or 0 without positive entropy); the informative ones are collected in reverse order, the others in ascending order |
| Mrmr.OpenRanking | include/mrmr.hpp:77-98 | the two rows pushed before the main loop are the class row and the first maximum of the relevance, which is then removed from the pool |
| Mrmr.PoolBelowExact | include/mrmr.hpp:63-74 | the pool holds exactly the non-class attributes of positive entropy, ascending |
| Mrmr.UselessBelowExact | include/mrmr.hpp:63-73 | the useless vector holds exactly the non-class attributes without positive entropy, ascending |
| Mrmr.PartitionBelow | include/mrmr.hpp:63-73 | class, pool and useless vector together hold every attribute exactly once |
| Mrmr.MaxElement | include/mrmr.hpp:88 | `max_element` returns the first position holding the largest value |
| Mrmr.FirstMaxIsFirstMaximum | include/mrmr.hpp:88 | no entry exceeds the first maximum, and every entry before it is smaller |
| Mrmr.SeedIsFirstMaximum | include/mrmr.hpp:75-88 | rank 1 is the first attribute of largest relevance; it is the class only when the class is the only attribute |
| Mrmr.RemoveKeeps | include/mrmr.hpp:90 | `remove` keeps the pool ascending and drops exactly the removed attribute |
| Mrmr.SelectRound | include/mrmr.hpp:103-118 | the inner loop updates the redundance of every pool member and returns the round's specified choice |
| Mrmr.RoundChoice | include/mrmr.hpp:107-118 | each pool member's redundance grows by its mutual information with the previous pick; the pick is a pool member whose score no candidate exceeds by more than epsilon |
| Mrmr.ClearWinnerPicked | include/mrmr.hpp:111-115 | a candidate that beats every other by more than epsilon is the one picked |
| Mrmr.AccumulateAt | include/mrmr.hpp:107-109 | over a duplicate-free pool each member's redundance is increased exactly once |
| Mrmr.EmitRound | include/mrmr.hpp:120-128 | one pass of the main loop emits the round's record and erases exactly the pick from the pool |
| Mrmr.SelectAll | include/mrmr.hpp:100-129 | the main loop emits one record per pool member, as the specification lists them, with ranks from 2 on |
| Mrmr.RoundsRanks | include/mrmr.hpp:120 | the records of the main loop carry consecutive ranks |
| Mrmr.RoundsPermutation | include/mrmr.hpp:127 | every pool member is picked in exactly one round |
| Mrmr.RoundsScores | include/mrmr.hpp:109-110 | each round's score is the pick's relevance minus its mean mutual information with the earlier picks |
| Mrmr.EmitUseless | include/mrmr.hpp:131-140 | the closing loop appends one record per useless attribute with ranks continuing |
| Mrmr.Rank | include/mrmr.hpp:47-143 | the imperative `mrmr` returns the six columns of the specified ranking |
| Mrmr.HeadRecords | include/mrmr.hpp:77-98 | rank 0 is the class with its own entropy as mutual information and a NaN score; rank 1 is the first attribute of greatest relevance, scored by that relevance |
| Mrmr.PoolAfterSeedExact | include/mrmr.hpp:74-90 | after rank 1 the pool holds the informative attributes other than the rank-1 pick, ascending |
| Mrmr.SelectedInformative | include/mrmr.hpp:102-127 | every attribute the main loop picks is informative and is not the rank-1 pick |
| Mrmr.SelectedScored | include/mrmr.hpp:109-125 | the main loop's records are scored against all attributes ranked from rank 1 on |
| Mrmr.RankSpecIndices | include/mrmr.hpp:81-135 | the index column is the class, the rank-1 pick, the main loop's picks and the useless attributes |
| Mrmr.ScoresAreMeanRedundancy | include/mrmr.hpp:100-125 | from rank 2 to the last informative attribute, each row is an informative attribute whose score is its mutual information with the class minus the mean of its mutual information with the attributes at ranks 1 .. k - 1 |
| Mrmr.UselessLast | include/mrmr.hpp:131-140 | after the main loop come the non-class attributes without positive entropy, ascending, with entropy 0, mutual information 0 and score -infinity |
| Mrmr.RoundsCount | include/mrmr.hpp:88-129 | the main loop picks every member of the full pool except the rank-1 pick, once |
| Mrmr.EveryAttributeRanked | include/mrmr.hpp:58-140 | every attribute appears in the index column exactly once, except that the rank-1 pick appears twice when it was not in the pool; the result has A or A + 1 rows |
| Mrmr.RanksConsecutive | include/mrmr.hpp:101-134 | ranks run 0, 1, 2, ... down the result |
| MrmrMain.StreamValid | mrmr.cpp:213-220 | the dataset `main` reads satisfies the class invariant |
| MrmrMain.MITable | mrmr.cpp:243 | the table the ranking reads holds `data.mutual_information(a, b)` for every pair |
| MrmrMain.InputOf | mrmr.cpp:242-268 | the ranking reads the dataset's names and entropies |
| MrmrMain.InputSymmetric | mrmr.cpp:279 | the mutual-information table is symmetric, so the order of arguments in the redundance update does not matter |
| MrmrMain.Run | mrmr.cpp:210-301 | `main` reports a read failure (an input that is only a header line included), or writes the dataset with `-w`, or prints the heading and the ranking |
| MrmrMain.WriteModeIgnoresRanking | mrmr.cpp:227-232 | what write mode prints depends neither on the class index nor on the logarithm |
| MrmrMain.HeaderOnlyFails | mrmr.cpp:213-220 | an input that is only a header line fails in either mode with "invalid value" at line 1 |
| MrmrMain.WriteModeRoundTrip | mrmr.cpp:227-232 | what write mode prints for a dataset with attributes reads back, with any recognized method, as the same dataset, also from its split header line when the names are tab-free |
| MrmrMain.RankModeReportsData | mrmr.cpp:236-295 | ranking mode prints the heading, then the class at rank 0 with its entropy; each row from rank 2 to the last informative attribute is a non-class attribute of positive entropy, printed with the dataset's mutual information between it and the class |

## Left out

- Floating point: all arithmetic is exact on reals. `std::numeric_limits<double>::epsilon()` is the exact real 2^-52. `NaN` and `-infinity` appear only where the source produces them.
- The float constants that tests.cpp:42 and tests.cpp:73-74 compare after rounding: they need real logarithms, and the logarithm is a parameter.
- Lexing: the input is a sequence of tokens, each a value and the character after it. An empty sequence is an input already at its end, where the loop's one failed read is the token of a 0 and `Eof` (`Matrix.Attempts`). How `operator>>` parses a double, and the locale set up by `delimiter_ctype`, are not modelled; include/delimiter_ctype.hpp is not part of this model. The header line arrives as its names, plus whether a newline ended it.
- The configurable `DELIMITER` for the header: the matrix reader and writer hard-code the tab.
- Option parsing, usage text, verbosity, `log_message`, the version output, the choice between a file and standard input, and the DEBUG trace of each candidate's score (mrmr.cpp:281-283).
- `exit(2)`, failed `assert`s and thrown exceptions become error results. An index passed to `_attr_info.at` that is out of range is the error `NoSuchAttribute`.
- MrmrMain.Run: the position of the class attribute is a precondition (`ClassFits`) because `main` never checks it against the number of attributes.
- The printed `main` table and `mrmr`'s six result vectors are the same records. The model keeps the records and does not format numbers as text.
- `main` calls `mutual_information` on demand. The model precomputes the table of those values (`MrmrMain.MITable`), which gives the same values because the dataset no longer changes.
- `std::sort` of `useless` is the identity: the vector is built in ascending order (Mrmr.UselessBelowExact).
- The `forward_list` `unselected` is a `seq`. `erase_after` removes the element after the iterator, as a position in that sequence.
- AttributeInformation.NumValues: returns the pdf's length as an unbounded number. `num_values()` returns `T`, and with the 256-counter histogram a pdf of 256 entries would wrap to 0. The as-written histogram never produces more than 255 entries; the corrected one is modelled with the intended count.
- Matrix.Write: excludes a matrix with rows but no columns. For such a matrix the writer would read before its buffer, because index (row + 1) * 0 - 1 wraps around.
- Dataset.FromStream: reads the matrix with the corrected trim (`Matrix.ReadFitted`, `Matrix.Parse`), and Dataset.ComputeAttributeInformation builds every attribute's information with the corrected 256-counter `AttributeInformation.New`. The stream constructor as written runs the as-written trim and the 255-counter histogram; those are modelled separately (`Matrix.Read`, `Matrix.TrailingTabLeavesShortBuffer`, `AttributeInformation.NewAsWritten`, `Dataset.Code255Reachable`), see "## Findings".
- Dataset.FromValues: fixes the vector's element type U to integers (`seq<int>`, narrowed to a code by `Wrap`, reduction modulo 256). For a floating-point U, the conversion into `matrix<T> temp` (truncation, undefined outside [0, 256)) is not modelled.
- Matrix.RoundTrip: values are abstract tokens. The writer's `os << m(r, c)` prints a double with six significant digits, so for real data the round trip only holds for values that print exactly, such as the integer codes. No number is formatted as text, in the matrix writer or in `main`'s table.
- Discretization overflow: `static_cast<itype>` of a rounded value outside the range of `long` (include/dataset.hpp:87-99) is undefined behaviour, and so is `std::abs` of the most negative `long`. The model computes on unbounded integers and reports `Overflow` for every |value| > 255.
- Attribute information for an attribute with no instances: the backward scan would run before the array. The model reports that as the error `NoInstances`.

Three behaviours of the code worth knowing:

- An unrecognized discretization method skips the loops entirely, so every code is 0 (Discretization.UnrecognizedMethodGivesZeros); the `default:` branch inside the switch is unreachable.
- A longer later row fails the column assert of `m(r, c)` at its first extra value (Matrix.LongRowRejected), before the separator check that reports inconsistent columns.
- `main`'s default method is TRUNCATE (mrmr.cpp:116; mrmr.cpp:73 prints the same default); it is passed in as `dm`.

## Findings

| source | as written | input that shows it | evidently intended | confidence | as-written member | corrected member |
|---|---|---|---|---|---|---|
| attribute_information.hpp:50 | `std::array<unsigned int, numeric_limits<T>::max()>` has 255 counters, so the code 255 indexes past the array | one attribute whose two instances hold 0 and 255, discretized with round: both checks pass and the codes are 0 and 255 | one counter per representable code, 256 in all | not executed | Dataset.Code255Reachable | AttributeInformation.New |
| matrix.hpp:169-174 | the final trim runs only when rows * cols is below the buffer size, so a buffer that is too short is kept | a first line of 200 zeros, then one zero followed by a tab at end of input: the result is 2 x 200 over 256 cells, and later reads such as `transpose` go past the buffer | the buffer becomes exactly rows * cols cells | not executed | Matrix.TrailingTabLeavesShortBuffer | Matrix.FittedParse |
