/** Per-attribute discrete distribution (`attribute_information<T>` of
    attribute_information.hpp): a histogram of small integer codes, trimmed
    after the largest observed code, normalised into a pdf, and its
    entropy. Codes are modelled for T = unsigned char. */
module AttributeInformation {
  import opened Floats

  /** `std::numeric_limits<unsigned char>::max()`. */
  const CodeMax: nat := 255

  datatype AttributeInformation = AttributeInformation(pdf: seq<real>, entropy: Ext)

  /** `num_values()` (attribute_information.hpp:69-72). */
  function NumValues(ai: AttributeInformation): nat {
    |ai.pdf|
  }

  /** `marginal_probability(index)`; the assert is the precondition
      (attribute_information.hpp:79-84). */
  function MarginalProbability(ai: AttributeInformation, k: nat): real
    requires k < NumValues(ai)
  {
    ai.pdf[k]
  }

  // ---------------------------------------------------------------------
  // Specification of the constructor
  // ---------------------------------------------------------------------

  /** The largest code of a non-empty run. */
  function MaxCode(codes: seq<nat>): (m: nat)
    requires |codes| > 0
    ensures m in codes && forall k :: 0 <= k < |codes| ==> codes[k] <= m
  {
    if |codes| == 1 then codes[0]
    else
      var rest := MaxCode(codes[1..]);
      assert forall k :: 1 <= k < |codes| ==> codes[k] == codes[1..][k - 1];
      if codes[0] >= rest then codes[0] else rest
  }

  /** The distribution the constructor stores: one bin per code from 0 up to
      the largest observed one, holding its relative frequency. */
  function Pdf(codes: seq<nat>): seq<real>
    requires |codes| > 0
  {
    seq(MaxCode(codes) + 1, v => multiset(codes)[v] as real / |codes| as real)
  }

  /** Sum of p * log2(p) over the pdf. */
  function PLogP(pdf: seq<real>, log2: real -> real): real {
    if pdf == [] then 0.0
    else PLogP(pdf[..|pdf| - 1], log2) + pdf[|pdf| - 1] * log2(pdf[|pdf| - 1])
  }

  /** `-(pdf * log(pdf)).sum() / log(2)` (attribute_information.hpp:66). An
      interior empty bin contributes 0 * log(0) = 0 * -inf = NaN, and NaN
      poisons the whole sum. */
  function Entropy(pdf: seq<real>, log2: real -> real): Ext {
    if exists k :: 0 <= k < |pdf| && pdf[k] == 0.0 then NaN
    else Fin(-PLogP(pdf, log2))
  }

  function Info(codes: seq<nat>, log2: real -> real): AttributeInformation
    requires |codes| > 0
  {
    AttributeInformation(Pdf(codes), Entropy(Pdf(codes), log2))
  }

  // ---------------------------------------------------------------------
  // The constructor (attribute_information.hpp:43-67)
  // ---------------------------------------------------------------------

  /** The counting loop over `temp_histogram`, a zeroed array of `slots`
      counters indexed by code (attribute_information.hpp:50-54). */
  method Histogram(codes: seq<nat>, slots: nat) returns (h: seq<nat>)
    requires forall k :: 0 <= k < |codes| ==> codes[k] < slots
    ensures |h| == slots && forall v :: 0 <= v < slots ==> h[v] == multiset(codes)[v]
  {
    var counts := new nat[slots](_ => 0);
    var i := 0;
    while i < |codes|
      invariant 0 <= i <= |codes|
      invariant forall v :: 0 <= v < slots ==> counts[v] == multiset(codes[..i])[v]
    {
      assert codes[..i + 1] == codes[..i] + [codes[i]];
      counts[codes[i]] := counts[codes[i]] + 1;
      i := i + 1;
    }
    assert codes[..i] == codes;
    h := counts[..];
  }

  /** The backward scan `while( *(--end) == 0 ) {} ++end;`
      (attribute_information.hpp:57-60): one past the last populated bin.
      Some bin must be populated, or the scan runs before the array. */
  method LastPopulated(h: seq<nat>) returns (end: nat)
    requires exists v :: 0 <= v < |h| && h[v] > 0
    ensures 1 <= end <= |h| && h[end - 1] > 0
    ensures forall v :: end <= v < |h| ==> h[v] == 0
  {
    end := |h| - 1;
    while h[end] == 0
      invariant 0 <= end < |h|
      invariant forall v :: end < v < |h| ==> h[v] == 0
      invariant exists v :: 0 <= v <= end && h[v] > 0
      decreases end
    {
      end := end - 1;
    }
    end := end + 1;
  }

  /** The constructor over a histogram of `slots` counters. */
  method Build(codes: seq<nat>, slots: nat, log2: real -> real) returns (ai: AttributeInformation)
    requires |codes| > 0
    requires forall k :: 0 <= k < |codes| ==> codes[k] < slots
    ensures ai == Info(codes, log2)
  {
    var h := Histogram(codes, slots);
    var top := MaxCode(codes);
    assert h[top] > 0;
    var end := LastPopulated(h);
    assert end - 1 in multiset(codes);
    var pdf := seq(end, v requires 0 <= v < end => h[v] as real / |codes| as real);
    assert pdf == Pdf(codes);
    ai := AttributeInformation(pdf, Entropy(pdf, log2));
  }

  /** The constructor as written: `std::array<unsigned int,
      numeric_limits<T>::max()>` has 255 counters, so code 255 has no slot
      and every code must be below 255. */
  method NewAsWritten(codes: seq<nat>, log2: real -> real) returns (ai: AttributeInformation)
    requires |codes| > 0
    requires forall k :: 0 <= k < |codes| ==> codes[k] < CodeMax
    ensures ai == Info(codes, log2)
  {
    ai := Build(codes, CodeMax, log2);
  }

  /** The constructor with one counter per representable code, 0..255; the
      dataset uses this one. */
  method New(codes: seq<nat>, log2: real -> real) returns (ai: AttributeInformation)
    requires |codes| > 0
    requires forall k :: 0 <= k < |codes| ==> codes[k] <= CodeMax
    ensures ai == Info(codes, log2)
  {
    ai := Build(codes, CodeMax + 1, log2);
  }

  // ---------------------------------------------------------------------
  // Properties
  // ---------------------------------------------------------------------

  /** `num_values()` is one more than the largest observed code: trailing
      empty bins are dropped, interior empty bins are kept with probability
      0, and the last bin is populated. */
  lemma NumValuesIsLargestCodePlusOne(codes: seq<nat>, log2: real -> real)
    requires |codes| > 0
    ensures var ai := Info(codes, log2);
      (forall k :: 0 <= k < |codes| ==> codes[k] < NumValues(ai)) &&
      NumValues(ai) - 1 in codes &&
      (forall v :: 0 <= v < NumValues(ai) ==> (MarginalProbability(ai, v) == 0.0 <==> v !in codes)) &&
      MarginalProbability(ai, NumValues(ai) - 1) > 0.0
  {
    var ai := Info(codes, log2);
    forall v | 0 <= v < NumValues(ai)
      ensures MarginalProbability(ai, v) == 0.0 <==> v !in codes
    {
      assert (v in codes) == (v in multiset(codes));
    }
    assert NumValues(ai) - 1 in multiset(codes);
  }

  /** `marginal_probability(k)` is the relative frequency of code k. */
  lemma MarginalIsFrequency(codes: seq<nat>, log2: real -> real, k: nat)
    requires |codes| > 0 && k < NumValues(Info(codes, log2))
    ensures MarginalProbability(Info(codes, log2), k) == multiset(codes)[k] as real / |codes| as real
  {
    InfoPdf(codes, log2);
  }

  lemma InfoPdf(codes: seq<nat>, log2: real -> real)
    requires |codes| > 0
    ensures Info(codes, log2).pdf == Pdf(codes)
  {
  }

  function Sum(s: seq<real>): real {
    if s == [] then 0.0 else Sum(s[..|s| - 1]) + s[|s| - 1]
  }

  /** Sum over codes 0..n-1 of their number of occurrences. */
  function CountSum(codes: seq<nat>, n: nat): nat {
    if n == 0 then 0 else CountSum(codes, n - 1) + multiset(codes)[n - 1]
  }

  lemma {:induction false} CountSumAppend(codes: seq<nat>, c: nat, n: nat)
    ensures CountSum(codes + [c], n) == CountSum(codes, n) + (if c < n then 1 else 0)
  {
    if n > 0 {
      CountSumAppend(codes, c, n - 1);
      assert multiset(codes + [c]) == multiset(codes) + multiset{c};
    }
  }

  /** Every occurrence is counted in exactly one bin below n. */
  lemma {:induction false} CountSumTotal(codes: seq<nat>, n: nat)
    requires forall k :: 0 <= k < |codes| ==> codes[k] < n
    ensures CountSum(codes, n) == |codes|
    decreases |codes|
  {
    if codes == [] {
      CountSumEmpty(n);
    } else {
      var init := codes[..|codes| - 1];
      assert codes == init + [codes[|codes| - 1]];
      CountSumTotal(init, n);
      CountSumAppend(init, codes[|codes| - 1], n);
    }
  }

  lemma {:induction false} CountSumEmpty(n: nat)
    ensures CountSum([], n) == 0
  {
    if n > 0 {
      CountSumEmpty(n - 1);
    }
  }

  function NatSum(s: seq<nat>): nat {
    if s == [] then 0 else NatSum(s[..|s| - 1]) + s[|s| - 1]
  }

  lemma {:induction false} CountSumIsNatSum(codes: seq<nat>, k: nat)
    ensures CountSum(codes, k) == NatSum(seq(k, v => multiset(codes)[v]))
  {
    if k > 0 {
      var counts := seq(k, v => multiset(codes)[v]);
      CountSumIsNatSum(codes, k - 1);
      assert counts[..k - 1] == seq(k - 1, v => multiset(codes)[v]);
    }
  }

  /** A histogram of codes below `slots` has the number of codes as its
      total. */
  lemma HistogramSum(codes: seq<nat>, slots: nat, h: seq<nat>)
    requires forall t :: 0 <= t < |codes| ==> codes[t] < slots
    requires |h| == slots && forall v :: 0 <= v < slots ==> h[v] == multiset(codes)[v]
    ensures NatSum(h) == |codes|
  {
    CountSumTotal(codes, slots);
    CountSumIsNatSum(codes, slots);
    assert h == seq(slots, v => multiset(codes)[v]);
  }

  /** Each count divided by n. */
  function Normalised(counts: seq<nat>, n: real): (s: seq<real>)
    requires n > 0.0
    ensures |s| == |counts| && forall v :: 0 <= v < |s| ==> s[v] == counts[v] as real / n
  {
    seq(|counts|, v requires 0 <= v < |counts| => counts[v] as real / n)
  }

  /** Counts over their total sum to 1. */
  lemma NormalisedSum(counts: seq<nat>, n: real)
    requires n > 0.0 && NatSum(counts) as real == n
    ensures Sum(Normalised(counts, n)) == 1.0
  {
    SumNormalised(counts, n);
    SelfRatio(n);
  }

  /** Dividing every count by n divides their sum by n. */
  lemma {:induction false} SumNormalised(counts: seq<nat>, n: real)
    requires n > 0.0
    ensures Sum(Normalised(counts, n)) == NatSum(counts) as real / n
  {
    if counts != [] {
      var k := |counts| - 1;
      SumNormalised(counts[..k], n);
      assert Normalised(counts, n)[..k] == Normalised(counts[..k], n);
      AddDiv(NatSum(counts[..k]) as real, counts[k] as real, n);
    }
  }

  // Solver helper (arithmetic on reals or sequence displays); models nothing of the source.
  lemma AddDiv(a: real, b: real, n: real)
    requires n > 0.0
    ensures a / n + b / n == (a + b) / n
  {
  }

  /** The pdf entries sum to 1. */
  lemma PdfSumsToOne(codes: seq<nat>)
    requires |codes| > 0
    ensures Sum(Pdf(codes)) == 1.0
  {
    var k := MaxCode(codes) + 1;
    var counts := seq(k, v => multiset(codes)[v]);
    CountSumIsNatSum(codes, k);
    CountSumTotal(codes, k);
    NormalisedSum(counts, |codes| as real);
    assert Pdf(codes) == Normalised(counts, |codes| as real);
  }


  /** For the codes [0,0,0,1,1,1,0,2,2,2,1,1,0,1,1,2]: three values with
      marginals 5/16, 7/16 and 4/16 (tests.cpp:39-43); `Info(codes, log2).pdf`
      is this pdf for every log2. */
  const TestColumn: seq<nat> := [0, 0, 0, 1, 1, 1, 0, 2, 2, 2, 1, 1, 0, 1, 1, 2]

  lemma TestCodes()
    ensures Pdf(TestColumn) == [5.0 / 16.0, 7.0 / 16.0, 4.0 / 16.0]
  {
    TestCounts();
    TestMax();
    PdfOfThree(TestColumn, 5, 7, 4, 16);
    SixteenthsOf(5, 7, 4);
  }

  // Solver helper (arithmetic on reals or sequence displays); models nothing of the source.
  lemma SixteenthsOf(a: nat, b: nat, c: nat)
    ensures [a as real / 16 as real, b as real / 16 as real, c as real / 16 as real]
      == [a as real / 16.0, b as real / 16.0, c as real / 16.0]
  {
    var s := [a as real / 16 as real, b as real / 16 as real, c as real / 16 as real];
    assert 16 as real == 16.0;
    ThreeEntries(s, a as real / 16.0, b as real / 16.0, c as real / 16.0);
  }

  lemma TestCounts()
    ensures var m := multiset(TestColumn); m[0] == 5 && m[1] == 7 && m[2] == 4
  {
  }

  lemma TestMax()
    ensures MaxCode(TestColumn) == 2
  {
    assert TestColumn[7] == 2;
    assert forall k :: 0 <= k < |TestColumn| ==> TestColumn[k] <= 2;
  }

  /** The pdf of codes whose largest value is 2. */
  lemma PdfOfThree(codes: seq<nat>, a: nat, b: nat, c: nat, n: nat)
    requires |codes| == n > 0 && MaxCode(codes) == 2
    requires multiset(codes)[0] == a && multiset(codes)[1] == b && multiset(codes)[2] == c
    ensures Pdf(codes) == [a as real / n as real, b as real / n as real, c as real / n as real]
  {
    ThreeEntries(Pdf(codes), a as real / n as real, b as real / n as real, c as real / n as real);
  }

  // Solver helper (arithmetic on reals or sequence displays); models nothing of the source.
  lemma OneEntry(s: seq<real>, a: real)
    requires |s| == 1 && s[0] == a
    ensures s == [a]
  {
  }

  // Solver helper (arithmetic on reals or sequence displays); models nothing of the source.
  lemma SelfRatio(n: real)
    requires n > 0.0
    ensures n / n == 1.0
  {
  }

  // Solver helper (arithmetic on reals or sequence displays); models nothing of the source.
  lemma ThreeEntries(s: seq<real>, a: real, b: real, c: real)
    requires |s| == 3 && s[0] == a && s[1] == b && s[2] == c
    ensures s == [a, b, c]
  {
  }

  // ---------------------------------------------------------------------
  // Entropy
  // ---------------------------------------------------------------------

  /** What the entropy computation relies on of the base-2 logarithm:
      log2(1) == 0 and log2 is negative strictly between 0 and 1. */
  ghost predicate LogLike(log2: real -> real) {
    log2(1.0) == 0.0 && forall p :: 0.0 < p < 1.0 ==> log2(p) < 0.0
  }

  lemma NegProduct(p: real, l: real)
    requires p > 0.0 && l < 0.0
    ensures p * l < 0.0
  {
  }

  lemma FractionBelowOne(c: real, n: real)
    requires 0.0 <= c < n
    ensures c / n < 1.0
  {
  }

  lemma FractionPositive(c: real, n: real)
    requires 0.0 < c && 0.0 < n
    ensures c / n > 0.0
  {
  }

  /** Two distinct codes together occur at most |codes| times. */
  lemma {:induction false} CountsDisjoint(codes: seq<nat>, a: nat, b: nat)
    requires a != b
    ensures multiset(codes)[a] + multiset(codes)[b] <= |codes|
    decreases |codes|
  {
    if codes != [] {
      var init := codes[..|codes| - 1];
      assert codes == init + [codes[|codes| - 1]];
      assert multiset(codes) == multiset(init) + multiset{codes[|codes| - 1]};
      CountsDisjoint(init, a, b);
    }
  }

  /** Every term of a pdf strictly inside (0, 1) contributes negatively. */
  lemma {:induction false} PLogPNegative(pdf: seq<real>, log2: real -> real)
    requires LogLike(log2) && |pdf| > 0
    requires forall k :: 0 <= k < |pdf| ==> 0.0 < pdf[k] < 1.0
    ensures PLogP(pdf, log2) < 0.0
  {
    var last := pdf[|pdf| - 1];
    NegProduct(last, log2(last));
    if |pdf| > 1 {
      PLogPNegative(pdf[..|pdf| - 1], log2);
    }
  }

  /** With at least two values and no empty interior bin, every marginal is
      strictly between 0 and 1. */
  lemma InteriorMarginals(codes: seq<nat>)
    requires |codes| > 0 && MaxCode(codes) >= 1
    requires forall v :: 0 <= v <= MaxCode(codes) ==> v in codes
    ensures forall v :: 0 <= v < |Pdf(codes)| ==> 0.0 < Pdf(codes)[v] < 1.0
  {
    var n := |codes|;
    forall v | 0 <= v < |Pdf(codes)|
      ensures 0.0 < Pdf(codes)[v] < 1.0
    {
      var other := if v == 0 then 1 else 0;
      assert v in codes && other in codes;
      assert v in multiset(codes) && other in multiset(codes);
      CountsDisjoint(codes, v, other);
      FractionPositive(multiset(codes)[v] as real, n as real);
      FractionBelowOne(multiset(codes)[v] as real, n as real);
    }
  }

  /** The entropy of an attribute whose codes are all 0 is exactly 0. */
  lemma SingleValueEntropy(codes: seq<nat>, log2: real -> real)
    requires |codes| > 0 && MaxCode(codes) == 0 && LogLike(log2)
    ensures Pdf(codes) == [1.0] && Entropy(Pdf(codes), log2) == Fin(0.0)
  {
    CountSumTotal(codes, 1);
    assert CountSum(codes, 1) == multiset(codes)[0];
    var pdf := Pdf(codes);
    var n := |codes| as real;
    assert pdf[0] == n / n;
    SelfRatio(n);
    OneEntry(pdf, 1.0);
    assert PLogP([1.0], log2) == 0.0 by {
      assert [1.0][..0] == [];
    }
  }

  /** The three outcomes of the entropy computation: NaN exactly when some
      code below the largest one never occurs, 0 exactly when a single value
      occurs, and a positive number otherwise. */
  lemma EntropyCases(codes: seq<nat>, log2: real -> real)
    requires |codes| > 0 && LogLike(log2)
    ensures var e := Info(codes, log2).entropy;
      var k := NumValues(Info(codes, log2));
      (e == NaN <==> exists v :: 0 <= v < k && v !in codes) &&
      (e == Fin(0.0) <==> k == 1) &&
      (Positive(e) <==> k >= 2 && forall v :: 0 <= v < k ==> v in codes)
  {
    var pdf := Pdf(codes);
    var top := MaxCode(codes);
    forall v | 0 <= v < |pdf|
      ensures pdf[v] == 0.0 <==> v !in codes
    {
      assert (v in codes) == (v in multiset(codes));
    }
    if top == 0 {
      SingleValueEntropy(codes, log2);
    } else if forall v :: 0 <= v <= top ==> v in codes {
      InteriorMarginals(codes);
      PLogPNegative(pdf, log2);
    }
  }
}
