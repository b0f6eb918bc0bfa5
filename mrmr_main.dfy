/** The dataset section of `main` (mrmr.cpp:211-301): read the dataset,
    either write it back out or print the mRMR ranking of every attribute
    against the class attribute. The ranking section runs the same pool,
    redundance and best-tracking loops as `mrmr` in include/mrmr.hpp and
    prints each record as a row instead of pushing it onto six vectors, so
    the printed table is modelled by the columns `Mrmr.Rank` builds. */
module MrmrMain {
  import opened Wrappers
  import opened Floats
  import Matrix
  import Discretization
  import Dataset
  import Mrmr

  /** The header row printed before the ranking (mrmr.cpp:257). */
  const Heading: string := "Rank\tIndex\tName\tEntropy\tMutual Information\tmRMR Score\n"

  /** What `main` produces once its options are parsed. */
  datatype Outcome =
    | /** Reading the dataset failed (`exit(2)`, an assertion or an
          exception inside the constructor). */
      ReadFailed(error: Dataset.DatasetError)
    | /** `-w`: the header line and the code matrix, then exit status 0. */
      Written(header: string, body: seq<Matrix.Token<nat>>)
    | /** The header row and the table of ranked attributes. */
      Ranked(heading: string, table: Mrmr.Ranking)

  /** A dataset the stream constructor returns satisfies the class
      invariant. */
  lemma StreamValid(header: seq<string>, newline: bool, body: seq<Matrix.Token<real>>,
                    dm: Discretization.Method, log2: real -> real)
    requires Dataset.StreamSpec(header, newline, body, dm, log2).Ok?
    ensures Dataset.Valid(Dataset.StreamSpec(header, newline, body, dm, log2).value, log2)
  {
    Matrix.FittedParse(body, 0.0);
    Dataset.AssembledValid(Matrix.Parse(body, 0.0).value, header, dm, log2);
  }

  /** The mutual information of every ordered pair of attributes, as
      `data.mutual_information(a, b)` returns it. */
  function MITable(ds: Dataset.Dataset, log2: real -> real): (t: seq<seq<real>>)
    requires Dataset.Valid(ds, log2)
    ensures |t| == |ds.names|
    ensures forall a :: 0 <= a < |t| ==> |t[a]| == |ds.names|
    ensures forall a, b :: 0 <= a < |t| && 0 <= b < |t[a]| ==> Dataset.MISpec(ds, a, b, log2) == Ok(t[a][b])
  {
    var n := |ds.names|;
    seq(n, a requires 0 <= a < n => seq(n, b requires 0 <= b < n => Dataset.MISpec(ds, a, b, log2).value))
  }

  /** The names, entropies and mutual informations the ranking reads from
      the dataset. */
  function InputOf(ds: Dataset.Dataset, log2: real -> real): (inp: Mrmr.RankInput)
    requires Dataset.Valid(ds, log2)
    ensures Mrmr.WellFormed(inp) && inp.names == ds.names
    ensures forall a :: 0 <= a < |ds.names| ==> inp.entropy[a] == ds.attrInfo[a].entropy
  {
    var n := |ds.names|;
    Mrmr.RankInput(ds.names, seq(n, a requires 0 <= a < n => ds.attrInfo[a].entropy), MITable(ds, log2))
  }

  /** The table the ranking reads is symmetric. */
  lemma InputSymmetric(ds: Dataset.Dataset, log2: real -> real)
    requires Dataset.Valid(ds, log2)
    ensures var inp := InputOf(ds, log2);
      forall a, b :: 0 <= a < |inp.mi| && 0 <= b < |inp.mi| ==> inp.mi[a][b] == inp.mi[b][a]
  {
    var inp := InputOf(ds, log2);
    forall a, b | 0 <= a < |inp.mi| && 0 <= b < |inp.mi|
      ensures inp.mi[a][b] == inp.mi[b][a]
    {
      Dataset.MutualInformationSymmetric(ds, a, b, log2);
    }
  }

  /** The class index is not checked by `main`: it must name an attribute
      of the dataset read. */
  predicate ClassFits(read: Result<Dataset.Dataset, Dataset.DatasetError>, cls: nat) {
    read.Ok? ==> cls < |read.value.names|
  }

  /** `main` after option parsing: the header names and the data tokens of
      the input, the discretization method, the class index (zero-based,
      after `--class` has been decremented) and whether `-w` was given. */
  function MainSpec(header: seq<string>, newline: bool, body: seq<Matrix.Token<real>>, dm: Discretization.Method,
                    cls: nat, justWrite: bool, log2: real -> real): Outcome
    requires justWrite || ClassFits(Dataset.StreamSpec(header, newline, body, dm, log2), cls)
  {
    match Dataset.StreamSpec(header, newline, body, dm, log2)
    case Err(e) => ReadFailed(e)
    case Ok(ds) =>
      StreamValid(header, newline, body, dm, log2);
      if justWrite then
        var (h, b) := Dataset.WriteSpec(ds);
        Written(h, b)
      else Ranked(Heading, Mrmr.Columns(Mrmr.RankSpec(InputOf(ds, log2), cls)))
  }

  method Run(header: seq<string>, newline: bool, body: seq<Matrix.Token<real>>, dm: Discretization.Method,
             cls: nat, justWrite: bool, log2: real -> real) returns (o: Outcome)
    requires justWrite || ClassFits(Dataset.StreamSpec(header, newline, body, dm, log2), cls)
    ensures o == MainSpec(header, newline, body, dm, cls, justWrite, log2)
  {
    var read := Dataset.FromStream(header, newline, body, dm, log2);
    if read.Err? {
      return ReadFailed(read.error);
    }
    var ds := read.value;
    StreamValid(header, newline, body, dm, log2);
    if justWrite {
      var h, b := Dataset.Write(ds);
      return Written(h, b);
    }
    var table := Mrmr.Rank(InputOf(ds, log2), cls);
    return Ranked(Heading, table);
  }

  // ---------------------------------------------------------------------
  // Properties
  // ---------------------------------------------------------------------

  /** Write mode computes no mutual information: what it prints depends
      neither on the class index nor on the logarithm. */
  lemma WriteModeIgnoresRanking(header: seq<string>, newline: bool, body: seq<Matrix.Token<real>>,
                                dm: Discretization.Method, c1: nat, c2: nat, l1: real -> real, l2: real -> real)
    ensures MainSpec(header, newline, body, dm, c1, true, l1) == MainSpec(header, newline, body, dm, c2, true, l2)
  {
    var r1, r2 := Dataset.StreamSpec(header, newline, body, dm, l1), Dataset.StreamSpec(header, newline, body, dm, l2);
    if newline && Matrix.Parse(body, 0.0).Ok? {
      Matrix.FittedParse(body, 0.0);
      var temp := Matrix.Parse(body, 0.0).value;
      assert r1 == Dataset.Assemble(temp, header, dm, l1) && r2 == Dataset.Assemble(temp, header, dm, l2);
      assert r1.Ok? <==> r2.Ok?;
      if r1.Ok? {
        assert r1.value.names == r2.value.names && r1.value.data == r2.value.data;
      }
    }
  }

  /** What write mode prints reads back, with any recognized method, as the
      dataset it was written from; with tab-free names its header line splits
      back into them. A dataset without attributes is excluded because write
      mode then prints no header line, which the reader rejects. */
  lemma WriteModeRoundTrip(header: seq<string>, newline: bool, body: seq<Matrix.Token<real>>,
                           dm: Discretization.Method, cls: nat, log2: real -> real)
    requires dm != Discretization.Unrecognized
    requires Dataset.StreamSpec(header, newline, body, dm, log2).Ok?
    requires |Dataset.StreamSpec(header, newline, body, dm, log2).value.names| >= 1
    ensures var ds := Dataset.StreamSpec(header, newline, body, dm, log2).value;
      var o := MainSpec(header, newline, body, dm, cls, true, log2);
      o.Written? && o.header == Dataset.Join(ds.names) + "\n" &&
      Dataset.StreamSpec(ds.names, true, Dataset.Printed(o.body), dm, log2) == Ok(ds) &&
      ((forall k :: 0 <= k < |ds.names| ==> Dataset.TabFree(ds.names[k])) ==>
        Dataset.StreamSpec(Dataset.Split(o.header[..|o.header| - 1]), true, Dataset.Printed(o.body), dm, log2) == Ok(ds))
  {
    var ds := Dataset.StreamSpec(header, newline, body, dm, log2).value;
    StreamValid(header, newline, body, dm, log2);
    Dataset.TextRoundTrip(ds, dm, log2);
  }

  /** An input that is only a header line fails in either mode with the
      reader's "invalid value" at line 1. */
  lemma HeaderOnlyFails(header: seq<string>, dm: Discretization.Method, cls: nat, justWrite: bool,
                        log2: real -> real)
    ensures ClassFits(Dataset.StreamSpec(header, true, [], dm, log2), cls)
    ensures MainSpec(header, true, [], dm, cls, justWrite, log2) == ReadFailed(Dataset.Malformed(Matrix.InvalidValue(1)))
  {
    Dataset.EmptyBodyMalformed(header, dm, log2);
  }

  /** In ranking mode the table opens with the class at rank 0, and from rank
      2 up to the last informative attribute each row reports an attribute of
      positive entropy with its mutual information with the class as the
      dataset computes it. */
  lemma RankModeReportsData(header: seq<string>, newline: bool, body: seq<Matrix.Token<real>>,
                            dm: Discretization.Method, cls: nat, log2: real -> real)
    requires Dataset.StreamSpec(header, newline, body, dm, log2).Ok?
    requires ClassFits(Dataset.StreamSpec(header, newline, body, dm, log2), cls)
    ensures var ds := Dataset.StreamSpec(header, newline, body, dm, log2).value;
      var o := MainSpec(header, newline, body, dm, cls, false, log2);
      Dataset.Valid(ds, log2) && o.Ranked? && o.heading == Heading && |o.table.indices| >= 2 &&
      o.table.ranks[0] == 0 && o.table.indices[0] == cls &&
      o.table.entropies[0] == o.table.mis[0] == ds.attrInfo[cls].entropy &&
      forall k :: 2 <= k < 2 + |Mrmr.PoolAfterSeed(InputOf(ds, log2), cls)| ==>
        k < |o.table.indices| && o.table.indices[k] < |ds.names| && o.table.indices[k] != cls &&
        Positive(ds.attrInfo[o.table.indices[k]].entropy) &&
        o.table.mis[k] == Fin(Dataset.MISpec(ds, cls, o.table.indices[k], log2).value)
  {
    var ds := Dataset.StreamSpec(header, newline, body, dm, log2).value;
    StreamValid(header, newline, body, dm, log2);
    var inp := InputOf(ds, log2);
    var rs := Mrmr.RankSpec(inp, cls);
    Mrmr.HeadRecords(inp, cls);
    Mrmr.ScoresAreMeanRedundancy(inp, cls);
    forall k | 2 <= k < 2 + |Mrmr.PoolAfterSeed(inp, cls)|
      ensures k < |rs| && rs[k].index < |ds.names| && rs[k].index != cls &&
        Positive(ds.attrInfo[rs[k].index].entropy) &&
        rs[k].mi == Fin(Dataset.MISpec(ds, cls, rs[k].index, log2).value)
    {
      assert Mrmr.MeanScoredAt(inp, cls, rs, k);
    }
  }
}
