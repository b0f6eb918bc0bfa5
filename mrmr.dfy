/** The greedy mRMR ranking `mrmr(data, class_attribute_index)`
    (include/mrmr.hpp:47-143), over the attribute names, entropies and the
    pairwise mutual-information table of a dataset. */
module Mrmr {
  import opened Floats

  /** `std::numeric_limits<double>::epsilon()`, 2^-52. */
  const Epsilon: real := 1.0 / 4503599627370496.0

  /** What the ranking reads from the dataset: `attribute_name(i)`,
      `attribute_entropy(i)` and `mutual_information(a, b)`. */
  datatype RankInput = RankInput(names: seq<string>, entropy: seq<Ext>, mi: seq<seq<real>>)

  predicate WellFormed(inp: RankInput) {
    |inp.entropy| == |inp.names| && |inp.mi| == |inp.names| &&
    forall a :: 0 <= a < |inp.mi| ==> |inp.mi[a]| == |inp.names|
  }

  /** One line of the result: rank, index, name, entropy, mutual
      information with the class, mRMR score. */
  datatype Record = Record(rank: nat, index: nat, name: string, entropy: Ext, mi: Ext, score: Ext)

  /** `mrmr_return_type`: the six vectors. */
  datatype Ranking = Ranking(ranks: seq<nat>, indices: seq<nat>, names: seq<string>,
                             entropies: seq<Ext>, mis: seq<Ext>, scores: seq<Ext>)

  function IndicesOf(rs: seq<Record>): (ix: seq<nat>)
    ensures |ix| == |rs| && forall k :: 0 <= k < |rs| ==> ix[k] == rs[k].index
  {
    seq(|rs|, k requires 0 <= k < |rs| => rs[k].index)
  }

  function Columns(rs: seq<Record>): (r: Ranking)
    ensures |r.ranks| == |r.indices| == |r.names| == |r.entropies| == |r.mis| == |r.scores| == |rs|
  {
    Ranking(seq(|rs|, k requires 0 <= k < |rs| => rs[k].rank),
            IndicesOf(rs),
            seq(|rs|, k requires 0 <= k < |rs| => rs[k].name),
            seq(|rs|, k requires 0 <= k < |rs| => rs[k].entropy),
            seq(|rs|, k requires 0 <= k < |rs| => rs[k].mi),
            seq(|rs|, k requires 0 <= k < |rs| => rs[k].score))
  }

  // ---------------------------------------------------------------------
  // Prerequisites (include/mrmr.hpp:58-75)
  // ---------------------------------------------------------------------

  /** A non-class attribute with positive entropy; `NaN > 0` is false. */
  predicate Informative(inp: RankInput, cls: nat, i: nat)
    requires i < |inp.entropy|
  {
    i != cls && Positive(inp.entropy[i])
  }

  /** `mutual_informations`: MI with the class for informative attributes,
      0 for the others, -infinity for the class itself. */
  function Relevance(inp: RankInput, cls: nat): (rel: seq<Ext>)
    requires WellFormed(inp) && cls < |inp.names|
    ensures |rel| == |inp.names|
  {
    seq(|inp.names|, i requires 0 <= i < |inp.names| =>
      if i == cls then NegInf
      else if Positive(inp.entropy[i]) then Fin(inp.mi[cls][i])
      else Fin(0.0))
  }

  /** The informative attributes below k, ascending. */
  function PoolBelow(inp: RankInput, cls: nat, k: nat): (pool: seq<nat>)
    requires k <= |inp.entropy|
    ensures forall j :: 0 <= j < |pool| ==> pool[j] < k
  {
    if k == 0 then []
    else PoolBelow(inp, cls, k - 1) + (if Informative(inp, cls, k - 1) then [k - 1] else [])
  }

  /** The non-class attributes below k without positive entropy,
      ascending. */
  function UselessBelow(inp: RankInput, cls: nat, k: nat): (useless: seq<nat>)
    requires k <= |inp.entropy|
    ensures |useless| <= k && forall j :: 0 <= j < |useless| ==> useless[j] < k
  {
    if k == 0 then []
    else UselessBelow(inp, cls, k - 1) + (if k - 1 != cls && !Positive(inp.entropy[k - 1]) then [k - 1] else [])
  }

  function Reversed(s: seq<nat>): (r: seq<nat>)
    ensures |r| == |s| && forall j :: 0 <= j < |s| ==> r[j] == s[|s| - 1 - j]
  {
    if |s| == 0 then [] else [s[|s| - 1]] + Reversed(s[..|s| - 1])
  }

  // ---------------------------------------------------------------------
  // Rank 1 (include/mrmr.hpp:87-98)
  // ---------------------------------------------------------------------

  /** `std::max_element` over the first k entries: the first one that no
      later entry exceeds. */
  function FirstMax(rel: seq<Ext>, k: nat): (m: nat)
    requires 1 <= k <= |rel|
    ensures m < k
  {
    if k == 1 then 0
    else
      var m := FirstMax(rel, k - 1);
      if Less(rel[m], rel[k - 1]) then k - 1 else m
  }

  /** `forward_list::remove`: every occurrence of x goes. */
  function Remove(s: seq<nat>, x: nat): (r: seq<nat>)
    ensures forall j :: 0 <= j < |r| ==> r[j] in s && r[j] != x
  {
    if |s| == 0 then []
    else (if s[0] == x then [] else [s[0]]) + Remove(s[1..], x)
  }

  // ---------------------------------------------------------------------
  // One round of the selection loop (include/mrmr.hpp:102-128)
  // ---------------------------------------------------------------------

  /** `redundance[c] += mutual_information(last, c)` for every c of the
      pool, in order. */
  function Accumulate(red: seq<real>, row: seq<real>, pool: seq<nat>): (r: seq<real>)
    requires forall j :: 0 <= j < |pool| ==> pool[j] < |red| && pool[j] < |row|
    ensures |r| == |red|
  {
    if |pool| == 0 then red
    else
      var before := Accumulate(red, row, pool[..|pool| - 1]);
      var c := pool[|pool| - 1];
      before[c := before[c] + row[c]]
  }

  /** `mutual_informations[c] - redundance[c] / (rank - 1)`. */
  function Score(rel: seq<Ext>, red: seq<real>, rank: nat, c: nat): real
    requires c < |rel| && c < |red| && rank >= 2
  {
    (if rel[c].Fin? then rel[c].v else 0.0) - red[c] / (rank - 1) as real
  }

  /** `mrmr_score - best_mrmr_score > epsilon`; against -infinity every
      finite score wins. */
  predicate Beats(score: real, best: Ext) {
    best.NegInf? || (best.Fin? && score - best.v > Epsilon)
  }

  /** `best_mrmr_score`, `best_attribute_index` and the position that
      `erase_it` precedes. */
  datatype Choice = Choice(best: Ext, index: nat, erase: nat)

  /** The scan over pool positions k.. */
  function Scan(rel: seq<Ext>, red: seq<real>, rank: nat, pool: seq<nat>, k: nat, acc: Choice): (ch: Choice)
    requires rank >= 2 && k <= |pool| && forall j :: 0 <= j < |pool| ==> pool[j] < |rel| && pool[j] < |red|
    decreases |pool| - k
  {
    if k == |pool| then acc
    else
      var s := Score(rel, red, rank, pool[k]);
      Scan(rel, red, rank, pool, k + 1, if Beats(s, acc.best) then Choice(Fin(s), pool[k], k) else acc)
  }

  ghost predicate PoolWithin(pool: seq<nat>, n: nat) {
    forall j :: 0 <= j < |pool| ==> pool[j] < n
  }

  function EraseAt(s: seq<nat>, k: nat): (r: seq<nat>)
    requires k < |s|
    ensures |r| == |s| - 1
  {
    s[..k] + s[k + 1..]
  }

  /** The choice of one round: the redundancy after its update and the
      scan's result. */
  function Round(inp: RankInput, rel: seq<Ext>, pool: seq<nat>, red: seq<real>, last: nat, rank: nat): (r: (seq<real>, Choice))
    requires WellFormed(inp) && |rel| == |inp.names| && |red| == |inp.names| && last < |inp.names| && rank >= 2
    requires PoolWithin(pool, |inp.names|) && |pool| > 0
    ensures |r.0| == |inp.names| && r.1.index < |inp.names| && r.1.erase < |pool|
  {
    var red' := Accumulate(red, inp.mi[last], pool);
    var ch := Scan(rel, red', rank, pool, 0, Choice(NegInf, last, 0));
    ScanBounds(rel, red', rank, pool, 0, Choice(NegInf, last, 0), |inp.names|);
    (red', ch)
  }

  lemma {:induction false} ScanBounds(rel: seq<Ext>, red: seq<real>, rank: nat, pool: seq<nat>, k: nat, acc: Choice, n: nat)
    requires rank >= 2 && k <= |pool| && forall j :: 0 <= j < |pool| ==> pool[j] < |rel| && pool[j] < |red|
    requires PoolWithin(pool, n) && acc.index < n && (acc.erase < |pool| || |pool| == 0)
    ensures var ch := Scan(rel, red, rank, pool, k, acc);
      ch.index < n && (ch.erase < |pool| || |pool| == 0)
    decreases |pool| - k
  {
    if k < |pool| {
      var s := Score(rel, red, rank, pool[k]);
      ScanBounds(rel, red, rank, pool, k + 1, if Beats(s, acc.best) then Choice(Fin(s), pool[k], k) else acc, n);
    }
  }

  /** The records of the selection loop from the given state on. */
  function Rounds(inp: RankInput, rel: seq<Ext>, pool: seq<nat>, red: seq<real>, last: nat, rank: nat): (rs: seq<Record>)
    requires WellFormed(inp) && |rel| == |inp.names| && |red| == |inp.names| && last < |inp.names| && rank >= 2
    requires PoolWithin(pool, |inp.names|)
    ensures |rs| == |pool| && PoolWithin(IndicesOf(rs), |inp.names|)
    decreases |pool|
  {
    if |pool| == 0 then []
    else
      var (red', ch) := Round(inp, rel, pool, red, last, rank);
      [Record(rank, ch.index, inp.names[ch.index], inp.entropy[ch.index], rel[ch.index], ch.best)] +
      Rounds(inp, rel, EraseAt(pool, ch.erase), red', ch.index, rank + 1)
  }

  /** `(rank, i, name, 0, 0, -infinity)` for each useless attribute, ranks
      continuing from `rank`. */
  function UselessRecords(inp: RankInput, useless: seq<nat>, rank: nat): (rs: seq<Record>)
    requires PoolWithin(useless, |inp.names|)
    ensures |rs| == |useless|
  {
    seq(|useless|, k requires 0 <= k < |useless| =>
      Record(rank + k, useless[k], inp.names[useless[k]], Fin(0.0), Fin(0.0), NegInf))
  }

  /** The rank-1 pick. */
  function Seed(inp: RankInput, cls: nat): (seed: nat)
    requires WellFormed(inp) && cls < |inp.names|
    ensures seed < |inp.names|
  {
    FirstMax(Relevance(inp, cls), |inp.names|)
  }

  /** The pool left after rank 1. */
  function PoolAfterSeed(inp: RankInput, cls: nat): (pool: seq<nat>)
    requires WellFormed(inp) && cls < |inp.names|
    ensures PoolWithin(pool, |inp.names|)
  {
    Remove(PoolBelow(inp, cls, |inp.names|), Seed(inp, cls))
  }

  function Zeros(n: nat): (z: seq<real>)
    ensures |z| == n && forall j :: 0 <= j < n ==> z[j] == 0.0
  {
    seq(n, _ => 0.0)
  }

  /** The whole result of `mrmr(data, cls)`, record by record. */
  function RankSpec(inp: RankInput, cls: nat): seq<Record>
    requires WellFormed(inp) && cls < |inp.names|
  {
    var rel := Relevance(inp, cls);
    var seed := Seed(inp, cls);
    var pool := PoolAfterSeed(inp, cls);
    [Record(0, cls, inp.names[cls], inp.entropy[cls], inp.entropy[cls], NaN),
     Record(1, seed, inp.names[seed], inp.entropy[seed], rel[seed], rel[seed])] +
    Rounds(inp, rel, pool, Zeros(|inp.names|), seed, 2) +
    UselessRecords(inp, UselessBelow(inp, cls, |inp.names|), 2 + |pool|)
  }

  // ---------------------------------------------------------------------
  // Facts the imperative version needs
  // ---------------------------------------------------------------------

  predicate Ascending(s: seq<nat>) {
    forall i, j :: 0 <= i < j < |s| ==> s[i] < s[j]
  }

  /** The pool holds exactly the informative attributes, ascending. */
  lemma {:induction false} PoolBelowExact(inp: RankInput, cls: nat, k: nat)
    requires k <= |inp.entropy|
    ensures Ascending(PoolBelow(inp, cls, k))
    ensures forall j :: 0 <= j < |PoolBelow(inp, cls, k)| ==> Informative(inp, cls, PoolBelow(inp, cls, k)[j])
    ensures forall i: nat :: i in PoolBelow(inp, cls, k) <==> i < k && Informative(inp, cls, i)
  {
    if k > 0 {
      PoolBelowExact(inp, cls, k - 1);
    }
  }

  lemma {:induction false} RemoveKeeps(s: seq<nat>, x: nat)
    requires Ascending(s)
    ensures Ascending(Remove(s, x))
    ensures forall y :: y in Remove(s, x) <==> y in s && y != x
  {
    if |s| > 0 {
      RemoveKeeps(s[1..], x);
      assert forall y :: y in s <==> y == s[0] || y in s[1..];
    }
  }

  lemma RoundsStep(inp: RankInput, rel: seq<Ext>, pool: seq<nat>, red: seq<real>, last: nat, rank: nat)
    requires WellFormed(inp) && |rel| == |inp.names| && |red| == |inp.names| && last < |inp.names| && rank >= 2
    requires PoolWithin(pool, |inp.names|) && |pool| > 0
    ensures var (red', ch) := Round(inp, rel, pool, red, last, rank);
      Rounds(inp, rel, pool, red, last, rank) ==
      [Record(rank, ch.index, inp.names[ch.index], inp.entropy[ch.index], rel[ch.index], ch.best)] +
      Rounds(inp, rel, EraseAt(pool, ch.erase), red', ch.index, rank + 1)
  {
  }

  /** Every pool member has a finite relevance. */
  ghost predicate FiniteOn(rel: seq<Ext>, pool: seq<nat>) {
    forall j :: 0 <= j < |pool| ==> pool[j] < |rel| && rel[pool[j]].Fin?
  }

  lemma EraseAtKeeps(s: seq<nat>, k: nat, rel: seq<Ext>)
    requires k < |s| && Ascending(s)
    ensures Ascending(EraseAt(s, k)) && (FiniteOn(rel, s) ==> FiniteOn(rel, EraseAt(s, k)))
    ensures multiset(s) == multiset(EraseAt(s, k)) + multiset{s[k]}
    ensures forall y :: y in EraseAt(s, k) ==> y in s
  {
    EraseAtEntries(s, k);
    EraseAtParts(s, k);
  }

  lemma EraseAtEntries(s: seq<nat>, k: nat)
    requires k < |s|
    ensures var r := EraseAt(s, k);
      forall j :: 0 <= j < |r| ==> r[j] == if j < k then s[j] else s[j + 1]
  {
  }

  lemma EraseAtParts(s: seq<nat>, k: nat)
    requires k < |s|
    ensures multiset(s) == multiset(EraseAt(s, k)) + multiset{s[k]}
    ensures forall y :: y in EraseAt(s, k) ==> y in s
  {
    assert s == s[..k] + [s[k]] + s[k + 1..];
  }

  lemma ReversedTwice(s: seq<nat>)
    ensures Reversed(Reversed(s)) == s
  {
  }

  lemma ReversedSnoc(s: seq<nat>, x: nat)
    ensures Reversed(s + [x]) == [x] + Reversed(s)
  {
  }

  /** With a duplicate-free pool the update order does not matter: each
      member is increased exactly once. */
  lemma {:induction false} AccumulateAt(red: seq<real>, row: seq<real>, pool: seq<nat>)
    requires forall j :: 0 <= j < |pool| ==> pool[j] < |red| && pool[j] < |row|
    requires Ascending(pool)
    ensures forall c :: 0 <= c < |red| ==>
      Accumulate(red, row, pool)[c] == red[c] + (if c in pool then row[c] else 0.0)
  {
    if |pool| > 0 {
      var init := pool[..|pool| - 1];
      AccumulateAt(red, row, init);
      assert pool[|pool| - 1] !in init;
      assert forall c :: c in pool <==> c in init || c == pool[|pool| - 1];
    }
  }

  lemma UselessPrefix(inp: RankInput, useless: seq<nat>, rank: nat, u: nat)
    requires PoolWithin(useless, |inp.names|) && u < |useless|
    ensures UselessRecords(inp, useless, rank)[..u + 1] ==
      UselessRecords(inp, useless, rank)[..u] + [Record(rank + u, useless[u], inp.names[useless[u]], Fin(0.0), Fin(0.0), NegInf)]
  {
  }

  /** The six `push_back`s of one row. */
  function Push(r: Ranking, x: Record): Ranking {
    Ranking(r.ranks + [x.rank], r.indices + [x.index], r.names + [x.name],
            r.entropies + [x.entropy], r.mis + [x.mi], r.scores + [x.score])
  }

  lemma ColumnsPush(rs: seq<Record>, x: Record)
    ensures Columns(rs + [x]) == Push(Columns(rs), x)
  {
  }

  // ---------------------------------------------------------------------
  // The algorithm (include/mrmr.hpp:47-143)
  // ---------------------------------------------------------------------

  /** The prerequisites loop: `mutual_informations` (with the class slot
      set to -infinity), the zeroed `redundance`, the `unselected` pool
      (pushed to the front, then reversed) and `useless`. */
  method Prerequisites(inp: RankInput, cls: nat)
    returns (relevance: array<Ext>, redundance: array<real>, unselected: seq<nat>, useless: seq<nat>)
    requires WellFormed(inp) && cls < |inp.names|
    ensures fresh(relevance) && fresh(redundance)
    ensures relevance[..] == Relevance(inp, cls) && redundance[..] == Zeros(|inp.names|)
    ensures unselected == PoolBelow(inp, cls, |inp.names|) && useless == UselessBelow(inp, cls, |inp.names|)
  {
    var n := |inp.names|;
    relevance := new Ext[n](_ => Fin(0.0));
    redundance := new real[n](_ => 0.0);
    var reversed;
    reversed, useless := ScanAttributes(inp, cls, relevance);
    ghost var pool := PoolBelow(inp, cls, n);
    ReversedTwice(pool);
    unselected := Reversed(reversed);
    relevance[cls] := NegInf;
    assert relevance[..] == Relevance(inp, cls);
  }

  /** The loop over the attributes: the relevance of every non-class
      attribute, the informative ones pushed to the front of `unselected`
      and the others appended to `useless`. */
  method ScanAttributes(inp: RankInput, cls: nat, relevance: array<Ext>)
    returns (reversed: seq<nat>, useless: seq<nat>)
    requires WellFormed(inp) && cls < |inp.names| && relevance.Length == |inp.names|
    modifies relevance
    ensures reversed == Reversed(PoolBelow(inp, cls, |inp.names|)) && useless == UselessBelow(inp, cls, |inp.names|)
    ensures forall j :: 0 <= j < |inp.names| && j != cls ==> relevance[j] == Relevance(inp, cls)[j]
  {
    var n := |inp.names|;
    ghost var rel := Relevance(inp, cls);
    reversed := [];
    useless := [];
    var i := 0;
    while i < n
      invariant 0 <= i <= n
      invariant reversed == Reversed(PoolBelow(inp, cls, i))
      invariant useless == UselessBelow(inp, cls, i)
      invariant forall j :: 0 <= j < i && j != cls ==> relevance[j] == rel[j]
    {
      ScanNext(inp, cls, i);
      if i != cls {
        if Positive(inp.entropy[i]) {
          relevance[i] := Fin(inp.mi[cls][i]);
          ReversedSnoc(PoolBelow(inp, cls, i), i);
          reversed := [i] + reversed;
        } else {
          relevance[i] := Fin(0.0);
          useless := useless + [i];
        }
      }
      i := i + 1;
    }
  }

  /** What attribute i adds to the pool, to `useless` and to the relevance. */
  lemma ScanNext(inp: RankInput, cls: nat, i: nat)
    requires WellFormed(inp) && cls < |inp.names| && i < |inp.names|
    ensures var pool, useless, rel := PoolBelow(inp, cls, i), UselessBelow(inp, cls, i), Relevance(inp, cls);
      if i == cls then
        PoolBelow(inp, cls, i + 1) == pool && UselessBelow(inp, cls, i + 1) == useless
      else if Positive(inp.entropy[i]) then
        PoolBelow(inp, cls, i + 1) == pool + [i] && UselessBelow(inp, cls, i + 1) == useless &&
        rel[i] == Fin(inp.mi[cls][i])
      else
        PoolBelow(inp, cls, i + 1) == pool && UselessBelow(inp, cls, i + 1) == useless + [i] &&
        rel[i] == Fin(0.0)
  {
    BelowNext(inp, cls, i);
  }

  lemma BelowNext(inp: RankInput, cls: nat, i: nat)
    requires i < |inp.entropy|
    ensures var pool, useless := PoolBelow(inp, cls, i), UselessBelow(inp, cls, i);
      if i == cls then
        PoolBelow(inp, cls, i + 1) == pool && UselessBelow(inp, cls, i + 1) == useless
      else if Positive(inp.entropy[i]) then
        PoolBelow(inp, cls, i + 1) == pool + [i] && UselessBelow(inp, cls, i + 1) == useless
      else
        PoolBelow(inp, cls, i + 1) == pool && UselessBelow(inp, cls, i + 1) == useless + [i]
  {
    assert PoolBelow(inp, cls, i + 1) == PoolBelow(inp, cls, i) + (if Informative(inp, cls, i) then [i] else []);
  }

  /** `std::max_element`: the first position holding the largest value. */
  method MaxElement(values: array<Ext>) returns (best: nat)
    requires values.Length >= 1
    ensures best == FirstMax(values[..], values.Length)
  {
    best := 0;
    var k := 1;
    while k < values.Length
      invariant 1 <= k <= values.Length && best == FirstMax(values[..], k)
    {
      if Less(values[best], values[k]) {
        best := k;
      }
      k := k + 1;
    }
  }

  /** The inner loop of one round: update the redundancy of every pool
      member and keep the candidate that beats the best so far by more
      than epsilon. */
  method SelectRound(inp: RankInput, relevance: array<Ext>, redundance: array<real>, unselected: seq<nat>,
                     last: nat, rank: nat)
    returns (best: nat, bestScore: Ext, erase: nat)
    requires WellFormed(inp) && relevance.Length == |inp.names| && redundance.Length == |inp.names|
    requires last < |inp.names| && rank >= 2 && |unselected| > 0
    requires PoolWithin(unselected, |inp.names|) && Ascending(unselected)
    requires FiniteOn(relevance[..], unselected)
    modifies redundance
    ensures var round := Round(inp, relevance[..], unselected, old(redundance[..]), last, rank);
      redundance[..] == round.0 && Choice(bestScore, best, erase) == round.1
  {
    ghost var rel := relevance[..];
    ghost var red0 := redundance[..];
    ghost var full := Accumulate(red0, inp.mi[last], unselected);
    best, bestScore, erase := last, NegInf, 0;
    var k := 0;
    while k < |unselected|
      invariant 0 <= k <= |unselected| && best < |inp.names| && erase < |unselected|
      invariant redundance[..] == Accumulate(red0, inp.mi[last], unselected[..k])
      invariant Scan(rel, full, rank, unselected, k, Choice(bestScore, best, erase)) ==
                Scan(rel, full, rank, unselected, 0, Choice(NegInf, last, 0))
    {
      var c := unselected[k];
      AccumulateNext(red0, inp.mi[last], unselected, k);
      AccumulateEntry(red0, inp.mi[last], unselected, k);
      redundance[c] := redundance[c] + inp.mi[last][c];
      var score := relevance[c].v - redundance[c] / (rank - 1) as real;
      ScanStep(rel, full, rank, unselected, k, Choice(bestScore, best, erase), score);
      if Beats(score, bestScore) {
        bestScore := Fin(score);
        best := c;
        erase := k;
      }
      k := k + 1;
    }
    assert unselected[..k] == unselected;
  }

  /** Adding the k-th pool member's term to the sums over the first k. */
  lemma AccumulateNext(red: seq<real>, row: seq<real>, pool: seq<nat>, k: nat)
    requires forall j :: 0 <= j < |pool| ==> pool[j] < |red| && pool[j] < |row|
    requires k < |pool|
    ensures var before, c := Accumulate(red, row, pool[..k]), pool[k];
      Accumulate(red, row, pool[..k + 1]) == before[c := before[c] + row[c]]
  {
    assert pool[..k + 1] == pool[..k] + [pool[k]];
    AccumulateSnoc(red, row, pool[..k], pool[k]);
  }

  lemma AccumulateSnoc(red: seq<real>, row: seq<real>, init: seq<nat>, c: nat)
    requires forall j :: 0 <= j < |init| ==> init[j] < |red| && init[j] < |row|
    requires c < |red| && c < |row|
    ensures var before := Accumulate(red, row, init);
      Accumulate(red, row, init + [c]) == before[c := before[c] + row[c]]
  {
    assert (init + [c])[..|init|] == init;
  }

  lemma AccumulateEntry(red: seq<real>, row: seq<real>, pool: seq<nat>, k: nat)
    requires forall j :: 0 <= j < |pool| ==> pool[j] < |red| && pool[j] < |row|
    requires Ascending(pool) && k < |pool|
    ensures Accumulate(red, row, pool[..k])[pool[k]] + row[pool[k]] == Accumulate(red, row, pool)[pool[k]]
  {
    AscendingPrefix(pool, k);
    AccumulateEntryAt(red, row, pool[..k], pool[k]);
    AccumulateEntryAt(red, row, pool, pool[k]);
  }

  lemma AscendingPrefix(pool: seq<nat>, k: nat)
    requires Ascending(pool) && k < |pool|
    ensures Ascending(pool[..k]) && pool[k] !in pool[..k]
  {
    assert forall j :: 0 <= j < k ==> pool[..k][j] < pool[k];
  }

  /** Entry c of the sums: its term is added exactly when c is in the pool. */
  lemma AccumulateEntryAt(red: seq<real>, row: seq<real>, pool: seq<nat>, c: nat)
    requires forall j :: 0 <= j < |pool| ==> pool[j] < |red| && pool[j] < |row|
    requires Ascending(pool) && c < |red|
    ensures Accumulate(red, row, pool)[c] == red[c] + (if c in pool then row[c] else 0.0)
  {
    AccumulateAt(red, row, pool);
  }

  /** One step of the scan, with the score of the k-th member given. */
  lemma ScanStep(rel: seq<Ext>, red: seq<real>, rank: nat, pool: seq<nat>, k: nat, acc: Choice, score: real)
    requires rank >= 2 && k < |pool| && forall j :: 0 <= j < |pool| ==> pool[j] < |rel| && pool[j] < |red|
    requires rel[pool[k]].Fin? && score == rel[pool[k]].v - red[pool[k]] / (rank - 1) as real
    ensures Scan(rel, red, rank, pool, k, acc) ==
      Scan(rel, red, rank, pool, k + 1, if Beats(score, acc.best) then Choice(Fin(score), pool[k], k) else acc)
  {
  }

  /** The records emitted so far, the one of this round and those of the
      rounds after it are the records emitted so far and those of this
      round on. */
  lemma RoundsAfter(inp: RankInput, rel: seq<Ext>, pool: seq<nat>, red: seq<real>, last: nat, rank: nat,
                    red': seq<real>, ch: Choice, done: seq<Record>)
    requires WellFormed(inp) && |rel| == |inp.names| && |red| == |inp.names| && last < |inp.names| && rank >= 2
    requires PoolWithin(pool, |inp.names|) && |pool| > 0
    requires Round(inp, rel, pool, red, last, rank) == (red', ch)
    ensures ch.erase < |pool| && ch.index < |inp.names| && |red'| == |inp.names|
    ensures PoolWithin(EraseAt(pool, ch.erase), |inp.names|)
    ensures done + [Record(rank, ch.index, inp.names[ch.index], inp.entropy[ch.index], rel[ch.index], ch.best)] +
            Rounds(inp, rel, EraseAt(pool, ch.erase), red', ch.index, rank + 1) ==
            done + Rounds(inp, rel, pool, red, last, rank)
  {
    EraseAtEntries(pool, ch.erase);
    RoundsStep(inp, rel, pool, red, last, rank);
  }

  /** One pass of the `while( !unselected.empty() )` loop: select, emit
      the row, `erase_after` the winner. */
  method EmitRound(inp: RankInput, relevance: array<Ext>, redundance: array<real>, unselected: seq<nat>,
                   last: nat, rank: nat, out: Ranking, ghost done: seq<Record>)
    returns (out': Ranking, unselected': seq<nat>, best: nat, ghost done': seq<Record>)
    requires WellFormed(inp) && relevance.Length == |inp.names| && redundance.Length == |inp.names|
    requires last < |inp.names| && rank >= 2 && |unselected| > 0
    requires PoolWithin(unselected, |inp.names|) && Ascending(unselected) && FiniteOn(relevance[..], unselected)
    requires out == Columns(done)
    modifies redundance
    ensures best < |inp.names| && |unselected'| == |unselected| - 1
    ensures PoolWithin(unselected', |inp.names|) && Ascending(unselected') && FiniteOn(relevance[..], unselected')
    ensures out' == Columns(done')
    ensures done' + Rounds(inp, relevance[..], unselected', redundance[..], best, rank + 1) ==
            done + Rounds(inp, relevance[..], unselected, old(redundance[..]), last, rank)
  {
    ghost var rel := relevance[..];
    ghost var red := redundance[..];
    var bestScore, erase;
    best, bestScore, erase := SelectRound(inp, relevance, redundance, unselected, last, rank);
    var record := Record(rank, best, inp.names[best], inp.entropy[best], relevance[best], bestScore);
    RoundsAfter(inp, rel, unselected, red, last, rank, redundance[..], Choice(bestScore, best, erase), done);
    EraseAtKeeps(unselected, erase, rel);
    ColumnsPush(done, record);
    out' := Push(out, record);
    done' := done + [record];
    unselected' := EraseAt(unselected, erase);
  }

  /** The `while( !unselected.empty() )` loop: one record per round. */
  method SelectAll(inp: RankInput, relevance: array<Ext>, redundance: array<real>, pool: seq<nat>,
                   seed: nat, retval: Ranking, ghost emitted: seq<Record>)
    returns (out: Ranking, rank: nat)
    requires WellFormed(inp) && relevance.Length == |inp.names| && redundance.Length == |inp.names|
    requires seed < |inp.names| && PoolWithin(pool, |inp.names|) && Ascending(pool)
    requires FiniteOn(relevance[..], pool)
    requires retval == Columns(emitted)
    modifies redundance
    ensures rank == 2 + |pool|
    ensures out == Columns(emitted + Rounds(inp, relevance[..], pool, old(redundance[..]), seed, 2))
  {
    var n := |inp.names|;
    ghost var rel := relevance[..];
    ghost var outcome := emitted + Rounds(inp, rel, pool, redundance[..], seed, 2);
    out := retval;
    ghost var done := emitted;
    var unselected := pool;
    var last: nat := seed;
    rank := 2;
    while |unselected| > 0
      invariant relevance[..] == rel && redundance.Length == n
      invariant Ascending(unselected) && PoolWithin(unselected, n)
      invariant FiniteOn(rel, unselected)
      invariant last < n && |unselected| <= |pool| && rank == 2 + |pool| - |unselected|
      invariant out == Columns(done)
      invariant done + Rounds(inp, rel, unselected, redundance[..], last, rank) == outcome
      decreases |unselected|
    {
      out, unselected, last, done := EmitRound(inp, relevance, redundance, unselected, last, rank, out, done);
      rank := rank + 1;
    }
  }

  /** The closing loop over `useless`, which is already ascending, so the
      sort leaves it as it is. */
  method EmitUseless(inp: RankInput, useless: seq<nat>, rank0: nat, retval: Ranking, ghost emitted: seq<Record>)
    returns (out: Ranking)
    requires PoolWithin(useless, |inp.names|) && retval == Columns(emitted)
    ensures out == Columns(emitted + UselessRecords(inp, useless, rank0))
  {
    ghost var tail := UselessRecords(inp, useless, rank0);
    ghost var done := emitted;
    out := retval;
    var rank := rank0;
    var u := 0;
    while u < |useless|
      invariant 0 <= u <= |useless| && rank == rank0 + u
      invariant out == Columns(done)
      invariant done == emitted + tail[..u]
    {
      var a := useless[u];
      var record := Record(rank, a, inp.names[a], Fin(0.0), Fin(0.0), NegInf);
      ColumnsPush(done, record);
      out := Push(out, record);
      UselessPrefix(inp, useless, rank0, u);
      done := done + [record];
      rank := rank + 1;
      u := u + 1;
    }
    assert tail[..u] == tail;
  }

  method Rank(inp: RankInput, cls: nat) returns (retval: Ranking)
    requires WellFormed(inp) && cls < |inp.names|
    ensures retval == Columns(RankSpec(inp, cls))
  {
    var n := |inp.names|;
    var relevance, redundance, unselected, useless := Prerequisites(inp, cls);
    var opening, best, pool := OpenRanking(inp, cls, relevance, unselected);
    PoolAfterSeedExact(inp, cls);
    var rank;
    retval, rank := SelectAll(inp, relevance, redundance, pool, best, opening, Opening(inp, cls));
    ghost var emitted := Opening(inp, cls) + Rounds(inp, Relevance(inp, cls), pool, Zeros(n), best, 2);
    UselessBelowExact(inp, cls, n);
    retval := EmitUseless(inp, useless, rank, retval, emitted);
    RankSpecParts(inp, cls);
  }

  /** The class record and rank 1, the first maximum of the relevance. */
  ghost function Opening(inp: RankInput, cls: nat): seq<Record>
    requires WellFormed(inp) && cls < |inp.names|
  {
    var rel, seed := Relevance(inp, cls), Seed(inp, cls);
    [Record(0, cls, inp.names[cls], inp.entropy[cls], inp.entropy[cls], NaN),
     Record(1, seed, inp.names[seed], inp.entropy[seed], rel[seed], rel[seed])]
  }

  /** The rows pushed before the selection loop: the class with its entropy
      twice and a NaN score, then the first maximum of the relevance, taken
      off the pool. */
  method OpenRanking(inp: RankInput, cls: nat, relevance: array<Ext>, unselected: seq<nat>)
    returns (retval: Ranking, best: nat, pool: seq<nat>)
    requires WellFormed(inp) && cls < |inp.names|
    requires relevance[..] == Relevance(inp, cls) && unselected == PoolBelow(inp, cls, |inp.names|)
    ensures retval == Columns(Opening(inp, cls))
    ensures best == Seed(inp, cls) && pool == PoolAfterSeed(inp, cls)
  {
    var classEntropy := inp.entropy[cls];
    var record := Record(0, cls, inp.names[cls], classEntropy, classEntropy, NaN);
    ColumnsPush([], record);
    retval := Push(Ranking([], [], [], [], [], []), record);
    ghost var emitted := [record];
    best := MaxElement(relevance);
    pool := Remove(unselected, best);
    var score := relevance[best];
    record := Record(1, best, inp.names[best], inp.entropy[best], score, score);
    ColumnsPush(emitted, record);
    retval := Push(retval, record);
  }

  lemma RankSpecParts(inp: RankInput, cls: nat)
    requires WellFormed(inp) && cls < |inp.names|
    ensures var rel, seed, pool := Relevance(inp, cls), Seed(inp, cls), PoolAfterSeed(inp, cls);
      RankSpec(inp, cls) ==
      Opening(inp, cls) + Rounds(inp, rel, pool, Zeros(|inp.names|), seed, 2) +
      UselessRecords(inp, UselessBelow(inp, cls, |inp.names|), 2 + |pool|)
  {
  }

  // ---------------------------------------------------------------------
  // Properties of the ranking
  // ---------------------------------------------------------------------

  lemma LessTotal(a: Ext, b: Ext)
    requires !a.NaN? && !b.NaN?
    ensures Less(a, b) || Less(b, a) || a == b
  {
  }

  /** `max_element` returns the first maximum: nothing exceeds it, and
      everything before it is smaller. */
  lemma {:induction false} FirstMaxIsFirstMaximum(rel: seq<Ext>, k: nat)
    requires 1 <= k <= |rel| && forall i :: 0 <= i < |rel| ==> !rel[i].NaN?
    ensures var m := FirstMax(rel, k);
      (forall i :: 0 <= i < k ==> !Less(rel[m], rel[i])) &&
      (forall i :: 0 <= i < m ==> Less(rel[i], rel[m]))
  {
    if k > 1 {
      FirstMaxIsFirstMaximum(rel, k - 1);
      var m := FirstMax(rel, k - 1);
      if Less(rel[m], rel[k - 1]) {
        forall i | 0 <= i < k - 1
          ensures Less(rel[i], rel[k - 1])
        {
          LessTotal(rel[i], rel[m]);
        }
      }
    }
  }

  /** Rank 1 holds the first attribute of largest relevance; it is the
      class only when the class is the only attribute. */
  lemma SeedIsFirstMaximum(inp: RankInput, cls: nat)
    requires WellFormed(inp) && cls < |inp.names|
    ensures var rel := Relevance(inp, cls); var seed := Seed(inp, cls);
      (forall i :: 0 <= i < |inp.names| ==> !Less(rel[seed], rel[i])) &&
      (forall i :: 0 <= i < seed ==> Less(rel[i], rel[seed])) &&
      (seed == cls <==> |inp.names| == 1)
  {
    var rel := Relevance(inp, cls);
    FirstMaxIsFirstMaximum(rel, |inp.names|);
    if |inp.names| > 1 {
      var other := if cls == 0 then 1 else 0;
      assert rel[cls] == NegInf && rel[other].Fin?;
      assert Less(rel[cls], rel[other]);
    }
  }

  /** The useless vector holds exactly the non-class attributes without
      positive entropy, ascending. */
  lemma {:induction false} UselessBelowExact(inp: RankInput, cls: nat, k: nat)
    requires k <= |inp.entropy|
    ensures Ascending(UselessBelow(inp, cls, k))
    ensures forall i: nat :: i in UselessBelow(inp, cls, k) <==> i < k && i != cls && !Positive(inp.entropy[i])
  {
    if k > 0 {
      UselessBelowExact(inp, cls, k - 1);
    }
  }

  /** Class, pool and useless vector together hold every attribute once. */
  lemma {:induction false} PartitionBelow(inp: RankInput, cls: nat, k: nat)
    requires k <= |inp.entropy|
    ensures multiset(PoolBelow(inp, cls, k)) + multiset(UselessBelow(inp, cls, k)) + Mark(cls, k) == multiset(Range(k))
  {
    if k > 0 {
      var j: nat := k - 1;
      PartitionBelow(inp, cls, j);
      PartitionStep(inp, cls, j);
      RangeStep(j);
    } else {
      assert PoolBelow(inp, cls, k) == [] && UselessBelow(inp, cls, k) == [] && Range(k) == [];
    }
  }

  function Mark(cls: nat, k: nat): multiset<nat> {
    if cls < k then multiset{cls} else multiset{}
  }

  lemma PartitionStep(inp: RankInput, cls: nat, j: nat)
    requires j < |inp.entropy|
    ensures multiset(PoolBelow(inp, cls, j + 1)) + multiset(UselessBelow(inp, cls, j + 1)) + Mark(cls, j + 1) ==
            multiset(PoolBelow(inp, cls, j)) + multiset(UselessBelow(inp, cls, j)) + Mark(cls, j) + multiset{j}
  {
    var pool, useless := PoolBelow(inp, cls, j), UselessBelow(inp, cls, j);
    BelowNext(inp, cls, j);
    if j == cls {
      assert Mark(cls, j + 1) == Mark(cls, j) + multiset{j};
    } else if Positive(inp.entropy[j]) {
      Appended(pool, useless, Mark(cls, j), j);
    } else {
      Appended(useless, pool, Mark(cls, j), j);
    }
  }

  lemma Appended(s: seq<nat>, t: seq<nat>, m: multiset<nat>, j: nat)
    ensures multiset(s + [j]) + multiset(t) + m == multiset(s) + multiset(t) + m + multiset{j}
    ensures multiset(t) + multiset(s + [j]) + m == multiset(t) + multiset(s) + m + multiset{j}
  {
    assert multiset(s + [j]) == multiset(s) + multiset{j};
  }

  lemma RangeStep(j: nat)
    ensures multiset(Range(j + 1)) == multiset(Range(j)) + multiset{j}
  {
    assert Range(j + 1) == Range(j) + [j];
  }

  function Range(k: nat): (r: seq<nat>)
    ensures |r| == k
  {
    if k == 0 then [] else Range(k - 1) + [k - 1]
  }

  lemma {:induction false} RemoveMultiset(s: seq<nat>, x: nat)
    ensures multiset(Remove(s, x)) == multiset(s)[x := 0]
  {
    if |s| > 0 {
      var t := s[1..];
      RemoveMultiset(t, x);
      assert s == [s[0]] + t;
      assert multiset(Remove(s, x)) == multiset(if s[0] == x then [] else [s[0]]) + multiset(Remove(t, x));
      RemoveHead(s[0], x, multiset(t), multiset(Remove(t, x)));
    }
  }

  lemma RemoveHead(h: nat, x: nat, m: multiset<nat>, r: multiset<nat>)
    requires r == m[x := 0]
    ensures multiset(if h == x then [] else [h]) + r == (multiset{h} + m)[x := 0]
  {
  }

  /** The state of the scan after k positions: nothing taken yet, or the
      position of the best candidate so far, which no earlier candidate
      beats by more than epsilon. */
  ghost predicate ScanState(rel: seq<Ext>, red: seq<real>, rank: nat, pool: seq<nat>, k: nat, acc: Choice)
    requires rank >= 2 && k <= |pool| && forall j :: 0 <= j < |pool| ==> pool[j] < |rel| && pool[j] < |red|
  {
    (acc.best.NegInf? && k == 0) ||
    (acc.best.Fin? && acc.erase < k && acc.index == pool[acc.erase] &&
     acc.best.v == Score(rel, red, rank, pool[acc.erase]) &&
     forall q :: 0 <= q < k ==> Score(rel, red, rank, pool[q]) <= acc.best.v + Epsilon)
  }

  lemma {:induction false} ScanKeeps(rel: seq<Ext>, red: seq<real>, rank: nat, pool: seq<nat>, k: nat, acc: Choice)
    requires rank >= 2 && k <= |pool| && forall j :: 0 <= j < |pool| ==> pool[j] < |rel| && pool[j] < |red|
    requires ScanState(rel, red, rank, pool, k, acc)
    ensures ScanState(rel, red, rank, pool, |pool|, Scan(rel, red, rank, pool, k, acc))
    decreases |pool| - k
  {
    if k < |pool| {
      var s := Score(rel, red, rank, pool[k]);
      var next := if Beats(s, acc.best) then Choice(Fin(s), pool[k], k) else acc;
      assert ScanState(rel, red, rank, pool, k + 1, next);
      ScanKeeps(rel, red, rank, pool, k + 1, next);
    }
  }

  /** One round: every pool member's redundancy grows by its mutual
      information with the previous pick, and the pick is a pool member
      whose score no candidate exceeds by more than epsilon (the first
      candidate is always taken, a later one only when it is better by more
      than epsilon). */
  lemma RoundChoice(inp: RankInput, rel: seq<Ext>, pool: seq<nat>, red: seq<real>, last: nat, rank: nat)
    requires WellFormed(inp) && |rel| == |inp.names| && |red| == |inp.names| && last < |inp.names| && rank >= 2
    requires PoolWithin(pool, |inp.names|) && |pool| > 0 && Ascending(pool)
    ensures var (red', ch) := Round(inp, rel, pool, red, last, rank);
      (forall c :: 0 <= c < |red| ==> red'[c] == red[c] + (if c in pool then inp.mi[last][c] else 0.0)) &&
      ch.index == pool[ch.erase] && ch.best == Fin(Score(rel, red', rank, ch.index)) &&
      forall q :: 0 <= q < |pool| ==> Score(rel, red', rank, pool[q]) <= ch.best.v + Epsilon
  {
    var (red', ch) := Round(inp, rel, pool, red, last, rank);
    AccumulateAt(red, inp.mi[last], pool);
    ScanKeeps(rel, red', rank, pool, 0, Choice(NegInf, last, 0));
  }

  /** A candidate that beats every other one by more than epsilon is the
      one picked. */
  lemma ClearWinnerPicked(inp: RankInput, rel: seq<Ext>, pool: seq<nat>, red: seq<real>, last: nat, rank: nat, w: nat)
    requires WellFormed(inp) && |rel| == |inp.names| && |red| == |inp.names| && last < |inp.names| && rank >= 2
    requires PoolWithin(pool, |inp.names|) && Ascending(pool) && w < |pool|
    requires var red' := Accumulate(red, inp.mi[last], pool);
      forall q :: 0 <= q < |pool| && q != w ==> Score(rel, red', rank, pool[w]) > Score(rel, red', rank, pool[q]) + Epsilon
    ensures Round(inp, rel, pool, red, last, rank).1.index == pool[w]
  {
    RoundChoice(inp, rel, pool, red, last, rank);
  }

  lemma {:induction false} RoundsRanks(inp: RankInput, rel: seq<Ext>, pool: seq<nat>, red: seq<real>, last: nat, rank: nat)
    requires WellFormed(inp) && |rel| == |inp.names| && |red| == |inp.names| && last < |inp.names| && rank >= 2
    requires PoolWithin(pool, |inp.names|)
    ensures var rs := Rounds(inp, rel, pool, red, last, rank);
      forall k :: 0 <= k < |rs| ==> rs[k].rank == rank + k
    decreases |pool|
  {
    if |pool| > 0 {
      var (red', ch) := Round(inp, rel, pool, red, last, rank);
      RoundsStep(inp, rel, pool, red, last, rank);
      RoundsRanks(inp, rel, EraseAt(pool, ch.erase), red', ch.index, rank + 1);
    }
  }

  /** Every pool member is picked in exactly one round. */
  lemma {:induction false} RoundsPermutation(inp: RankInput, rel: seq<Ext>, pool: seq<nat>, red: seq<real>, last: nat, rank: nat)
    requires WellFormed(inp) && |rel| == |inp.names| && |red| == |inp.names| && last < |inp.names| && rank >= 2
    requires PoolWithin(pool, |inp.names|) && Ascending(pool)
    ensures multiset(IndicesOf(Rounds(inp, rel, pool, red, last, rank))) == multiset(pool)
    decreases |pool|
  {
    if |pool| > 0 {
      var (red', ch) := Round(inp, rel, pool, red, last, rank);
      RoundsStep(inp, rel, pool, red, last, rank);
      RoundPick(inp, rel, pool, red, last, rank);
      var erased := EraseAt(pool, ch.erase);
      EraseAtKeeps(pool, ch.erase, rel);
      var rest := Rounds(inp, rel, erased, red', ch.index, rank + 1);
      RoundsPermutation(inp, rel, erased, red', ch.index, rank + 1);
      IndicesCons(Record(rank, ch.index, inp.names[ch.index], inp.entropy[ch.index], rel[ch.index], ch.best), rest);
      ConsPermutation(ch.index, IndicesOf(rest), pool, erased);
    }
  }

  /** The pick of a round is the pool member at the erased position. */
  lemma RoundPick(inp: RankInput, rel: seq<Ext>, pool: seq<nat>, red: seq<real>, last: nat, rank: nat)
    requires WellFormed(inp) && |rel| == |inp.names| && |red| == |inp.names| && last < |inp.names| && rank >= 2
    requires PoolWithin(pool, |inp.names|) && |pool| > 0 && Ascending(pool)
    ensures var ch := Round(inp, rel, pool, red, last, rank).1; ch.index == pool[ch.erase]
  {
    RoundChoice(inp, rel, pool, red, last, rank);
  }

  lemma IndicesCons(r: Record, rest: seq<Record>)
    ensures IndicesOf([r] + rest) == [r.index] + IndicesOf(rest)
  {
  }

  lemma ConsPermutation(x: nat, tail: seq<nat>, pool: seq<nat>, erased: seq<nat>)
    requires multiset(tail) == multiset(erased) && multiset(pool) == multiset(erased) + multiset{x}
    ensures multiset([x] + tail) == multiset(pool)
  {
    assert multiset([x] + tail) == multiset{x} + multiset(tail);
  }

  /** The sum of `mutual_information(p, c)` over the first m picks p. */
  function Redundancy(inp: RankInput, picks: seq<nat>, m: nat, c: nat): real
    requires WellFormed(inp) && m <= |picks| && PoolWithin(picks, |inp.names|) && c < |inp.names|
  {
    if m == 0 then 0.0
    else Redundancy(inp, picks, m - 1, c) + inp.mi[picks[m - 1]][c]
  }

  /** The state a round of rank `rank` starts from: `whole` holds the picks
      from rank 1 on, the last of them at rank - 1, and `red` holds, for each
      pool member, the redundancy with all of them but the last. */
  ghost predicate RoundStart(inp: RankInput, rel: seq<Ext>, pool: seq<nat>, red: seq<real>, last: nat,
                             rank: nat, whole: seq<nat>)
  {
    WellFormed(inp) && |rel| == |inp.names| && |red| == |inp.names| && last < |inp.names| && rank >= 2 &&
    PoolWithin(pool, |inp.names|) && Ascending(pool) && FiniteOn(rel, pool) &&
    PoolWithin(whole, |inp.names|) && rank - 1 <= |whole| && whole[rank - 2] == last &&
    forall c :: c in pool ==> red[c] == Redundancy(inp, whole, rank - 2, c)
  }

  /** A record at rank m + 1 whose score is its relevance minus its mean
      mutual information with the first m picks. */
  ghost predicate ScoredPick(inp: RankInput, rel: seq<Ext>, r: Record, whole: seq<nat>, m: nat) {
    WellFormed(inp) && |rel| == |inp.names| && PoolWithin(whole, |inp.names|) && r.index < |inp.names| &&
    1 <= m <= |whole| &&
    r.mi == rel[r.index] && rel[r.index].Fin? &&
    r.score == Fin(rel[r.index].v - Redundancy(inp, whole, m, r.index) / m as real)
  }

  /** The first round's pick, and the state the next round starts from. */
  lemma RoundScore(inp: RankInput, rel: seq<Ext>, pool: seq<nat>, red: seq<real>, last: nat, rank: nat, whole: seq<nat>)
    requires RoundStart(inp, rel, pool, red, last, rank, whole) && |pool| > 0
    requires rank - 1 < |whole| && whole[rank - 1] == Round(inp, rel, pool, red, last, rank).1.index
    ensures var (red', ch) := Round(inp, rel, pool, red, last, rank);
      var rs := Rounds(inp, rel, pool, red, last, rank);
      ScoredPick(inp, rel, rs[0], whole, rank - 1) &&
      RoundStart(inp, rel, EraseAt(pool, ch.erase), red', ch.index, rank + 1, whole)
  {
    var (red', ch) := Round(inp, rel, pool, red, last, rank);
    RoundsStep(inp, rel, pool, red, last, rank);
    RoundChoice(inp, rel, pool, red, last, rank);
    UpdatedRedundancy(inp, rel, pool, red, last, rank, whole, red');
    EraseAtKeeps(pool, ch.erase, rel);
  }

  lemma UpdatedRedundancy(inp: RankInput, rel: seq<Ext>, pool: seq<nat>, red: seq<real>, last: nat, rank: nat,
                          whole: seq<nat>, red': seq<real>)
    requires RoundStart(inp, rel, pool, red, last, rank, whole) && |red'| == |red|
    requires forall c :: 0 <= c < |red| ==> red'[c] == red[c] + (if c in pool then inp.mi[last][c] else 0.0)
    ensures forall c :: c in pool ==> red'[c] == Redundancy(inp, whole, rank - 1, c)
  {
  }

  /** The score of every round's pick is its relevance minus its mean
      mutual information with the attributes picked at the earlier ranks
      (from rank 1 on); `whole` is the complete sequence of picks from
      rank 1 on. */
  lemma {:induction false} RoundsScores(inp: RankInput, rel: seq<Ext>, pool: seq<nat>, red: seq<real>, last: nat,
                                        rank: nat, whole: seq<nat>)
    requires RoundStart(inp, rel, pool, red, last, rank, whole)
    requires whole[rank - 1..] == IndicesOf(Rounds(inp, rel, pool, red, last, rank))
    ensures ScoredFrom(inp, rel, Rounds(inp, rel, pool, red, last, rank), whole, rank - 1)
    decreases |pool|
  {
    if |pool| > 0 {
      var r := Round(inp, rel, pool, red, last, rank);
      var pool', red', last' := EraseAt(pool, r.1.erase), r.0, r.1.index;
      NextRoundStart(inp, rel, pool, red, last, rank, whole);
      RoundsScores(inp, rel, pool', red', last', rank + 1, whole);
      ShiftScores(inp, rel, Rounds(inp, rel, pool, red, last, rank), Rounds(inp, rel, pool', red', last', rank + 1), whole, rank);
    }
  }

  /** After a round, the next one starts from the updated redundance with
      the rest of the picks, and the round's own record is scored. */
  lemma NextRoundStart(inp: RankInput, rel: seq<Ext>, pool: seq<nat>, red: seq<real>, last: nat,
                       rank: nat, whole: seq<nat>)
    requires RoundStart(inp, rel, pool, red, last, rank, whole) && |pool| > 0
    requires whole[rank - 1..] == IndicesOf(Rounds(inp, rel, pool, red, last, rank))
    ensures var (red', ch) := Round(inp, rel, pool, red, last, rank);
      var rs := Rounds(inp, rel, pool, red, last, rank);
      var rest := Rounds(inp, rel, EraseAt(pool, ch.erase), red', ch.index, rank + 1);
      RoundStart(inp, rel, EraseAt(pool, ch.erase), red', ch.index, rank + 1, whole) &&
      whole[rank..] == IndicesOf(rest) && rest == rs[1..] && ScoredPick(inp, rel, rs[0], whole, rank - 1)
  {
    var (red', ch) := Round(inp, rel, pool, red, last, rank);
    RoundsStep(inp, rel, pool, red, last, rank);
    assert whole[rank - 1] == whole[rank - 1..][0] == ch.index;
    RoundScore(inp, rel, pool, red, last, rank, whole);
    var rest := Rounds(inp, rel, EraseAt(pool, ch.erase), red', ch.index, rank + 1);
    assert whole[rank..] == whole[rank - 1..][1..] == IndicesOf(rest);
  }

  /** Record k of rs is scored against the first m + k picks. */
  ghost predicate ScoredFrom(inp: RankInput, rel: seq<Ext>, rs: seq<Record>, whole: seq<nat>, m: nat) {
    forall k :: 0 <= k < |rs| ==> ScoredPick(inp, rel, rs[k], whole, m + k)
  }

  lemma ShiftScores(inp: RankInput, rel: seq<Ext>, rs: seq<Record>, rest: seq<Record>, whole: seq<nat>, rank: nat)
    requires |rs| > 0 && rest == rs[1..] && rank >= 2
    requires ScoredPick(inp, rel, rs[0], whole, rank - 1) && ScoredFrom(inp, rel, rest, whole, rank)
    ensures ScoredFrom(inp, rel, rs, whole, rank - 1)
  {
    forall k | 0 <= k < |rs|
      ensures ScoredPick(inp, rel, rs[k], whole, rank - 1 + k)
    {
      if k > 0 {
        assert rs[k] == rest[k - 1];
      }
    }
  }

  lemma {:induction false} AscendingCount(s: seq<nat>, x: nat)
    requires Ascending(s)
    ensures multiset(s)[x] == if x in s then 1 else 0
  {
    if |s| > 0 {
      AscendingCount(s[1..], x);
      assert s == [s[0]] + s[1..];
      assert s[0] !in s[1..];
    }
  }

  lemma DropOne(m: multiset<nat>, x: nat)
    ensures m[x] == 1 ==> m[x := 0] + multiset{x} == m
    ensures m[x] == 0 ==> m[x := 0] == m
  {
  }

  lemma UselessIndices(inp: RankInput, useless: seq<nat>, rank: nat)
    requires PoolWithin(useless, |inp.names|)
    ensures IndicesOf(UselessRecords(inp, useless, rank)) == useless
  {
  }

  /** The pool left after rank 1 is ascending and holds the informative
      attributes other than the rank-1 pick. */
  lemma PoolAfterSeedExact(inp: RankInput, cls: nat)
    requires WellFormed(inp) && cls < |inp.names|
    ensures var pool := PoolAfterSeed(inp, cls);
      Ascending(pool) && FiniteOn(Relevance(inp, cls), pool) &&
      forall i: nat :: i in pool <==> i < |inp.names| && Informative(inp, cls, i) && i != Seed(inp, cls)
  {
    PoolBelowExact(inp, cls, |inp.names|);
    RemoveKeeps(PoolBelow(inp, cls, |inp.names|), Seed(inp, cls));
  }

  /** Every attribute appears in the index column exactly once, except that
      the rank-1 pick appears twice when it was not in the pool (the class,
      when it is the only attribute, or an attribute without positive
      entropy); so the result has A or A + 1 rows. */
  lemma EveryAttributeRanked(inp: RankInput, cls: nat)
    requires WellFormed(inp) && cls < |inp.names|
    ensures var n, seed := |inp.names|, Seed(inp, cls);
      var extra := if seed in PoolBelow(inp, cls, n) then multiset{} else multiset{seed};
      multiset(Columns(RankSpec(inp, cls)).indices) == multiset(Range(n)) + extra &&
      |RankSpec(inp, cls)| == n + |extra|
  {
    var n, seed := |inp.names|, Seed(inp, cls);
    var rel := Relevance(inp, cls);
    var full := PoolBelow(inp, cls, n);
    var pool := PoolAfterSeed(inp, cls);
    var useless := UselessBelow(inp, cls, n);
    var rounds := Rounds(inp, rel, pool, Zeros(n), seed, 2);
    RoundsCount(inp, cls);
    PartitionBelow(inp, cls, n);
    assert Mark(cls, n) == multiset{cls};
    IndicesOfRankSpec(inp, cls);
    CountIndices(IndicesOf(RankSpec(inp, cls)), cls, seed, IndicesOf(rounds), full, useless, multiset(Range(n)));
    assert |multiset(Range(n))| == n;
  }

  /** The selection loop picks each pool member but the rank-1 pick
      once. */
  lemma RoundsCount(inp: RankInput, cls: nat)
    requires WellFormed(inp) && cls < |inp.names|
    ensures var n, seed, full := |inp.names|, Seed(inp, cls), PoolBelow(inp, cls, |inp.names|);
      multiset(IndicesOf(Rounds(inp, Relevance(inp, cls), PoolAfterSeed(inp, cls), Zeros(n), seed, 2))) ==
        multiset(full)[seed := 0] &&
      multiset(full)[seed] == (if seed in full then 1 else 0)
  {
    var n, seed, full := |inp.names|, Seed(inp, cls), PoolBelow(inp, cls, |inp.names|);
    PoolAfterSeedExact(inp, cls);
    PoolBelowExact(inp, cls, n);
    RoundsPermutation(inp, Relevance(inp, cls), PoolAfterSeed(inp, cls), Zeros(n), seed, 2);
    RemoveMultiset(full, seed);
    AscendingCount(full, seed);
  }

  lemma IndicesOfRankSpec(inp: RankInput, cls: nat)
    requires WellFormed(inp) && cls < |inp.names|
    ensures var n, seed, pool := |inp.names|, Seed(inp, cls), PoolAfterSeed(inp, cls);
      IndicesOf(RankSpec(inp, cls)) ==
      [cls, seed] + IndicesOf(Rounds(inp, Relevance(inp, cls), pool, Zeros(n), seed, 2)) + UselessBelow(inp, cls, n)
  {
    var n, seed, pool := |inp.names|, Seed(inp, cls), PoolAfterSeed(inp, cls);
    RankSpecParts(inp, cls);
    UselessIndices(inp, UselessBelow(inp, cls, n), 2 + |pool|);
  }

  lemma CountIndices(ix: seq<nat>, cls: nat, seed: nat, r: seq<nat>, full: seq<nat>, useless: seq<nat>, range: multiset<nat>)
    requires ix == [cls, seed] + r + useless
    requires multiset(r) == multiset(full)[seed := 0]
    requires multiset(full)[seed] == (if seed in full then 1 else 0)
    requires multiset(full) + multiset(useless) + multiset{cls} == range
    ensures multiset(ix) == range + (if seed in full then multiset{} else multiset{seed})
  {
    DropOne(multiset(full), seed);
    assert multiset(ix) == multiset{cls} + multiset{seed} + multiset(r) + multiset(useless);
  }

  /** Ranks run 0, 1, 2, ... down the result. */
  lemma RanksConsecutive(inp: RankInput, cls: nat)
    requires WellFormed(inp) && cls < |inp.names|
    ensures var rs := RankSpec(inp, cls);
      forall k :: 0 <= k < |rs| ==> rs[k].rank == k
  {
    var n, seed := |inp.names|, Seed(inp, cls);
    var rel := Relevance(inp, cls);
    var pool := PoolAfterSeed(inp, cls);
    RankSpecParts(inp, cls);
    RoundsRanks(inp, rel, pool, Zeros(n), seed, 2);
  }

  lemma {:induction false} RedundancyPrefix(inp: RankInput, a: seq<nat>, b: seq<nat>, m: nat, c: nat)
    requires WellFormed(inp) && m <= |a| && m <= |b| && a[..m] == b[..m]
    requires PoolWithin(a, |inp.names|) && PoolWithin(b, |inp.names|) && c < |inp.names|
    ensures Redundancy(inp, a, m, c) == Redundancy(inp, b, m, c)
  {
    if m > 0 {
      assert a[..m - 1] == a[..m][..m - 1] && b[..m - 1] == b[..m][..m - 1];
      assert a[m - 1] == a[..m][m - 1] && b[m - 1] == b[..m][m - 1];
      RedundancyPrefix(inp, a, b, m - 1, c);
    }
  }

  /** The records of the selection loop, as picked from the pool left after
      rank 1. */
  function Selected(inp: RankInput, cls: nat): (rs: seq<Record>)
    requires WellFormed(inp) && cls < |inp.names|
    ensures |rs| == |PoolAfterSeed(inp, cls)| && PoolWithin(IndicesOf(rs), |inp.names|)
  {
    Rounds(inp, Relevance(inp, cls), PoolAfterSeed(inp, cls), Zeros(|inp.names|), Seed(inp, cls), 2)
  }

  lemma SelectedInformative(inp: RankInput, cls: nat)
    requires WellFormed(inp) && cls < |inp.names|
    ensures var rs := Selected(inp, cls);
      forall j :: 0 <= j < |rs| ==> Informative(inp, cls, rs[j].index) && rs[j].index != Seed(inp, cls)
  {
    var rs := Selected(inp, cls);
    var pool := PoolAfterSeed(inp, cls);
    PoolAfterSeedExact(inp, cls);
    RoundsPermutation(inp, Relevance(inp, cls), pool, Zeros(|inp.names|), Seed(inp, cls), 2);
    forall j | 0 <= j < |rs|
      ensures rs[j].index in pool
    {
      assert IndicesOf(rs)[j] in multiset(IndicesOf(rs));
    }
  }

  lemma SelectedScored(inp: RankInput, cls: nat)
    requires WellFormed(inp) && cls < |inp.names|
    ensures var rs := Selected(inp, cls); var whole := [Seed(inp, cls)] + IndicesOf(rs);
      forall j :: 0 <= j < |rs| ==> ScoredPick(inp, Relevance(inp, cls), rs[j], whole, 1 + j)
  {
    var n, seed, pool := |inp.names|, Seed(inp, cls), PoolAfterSeed(inp, cls);
    var rel := Relevance(inp, cls);
    var rs := Selected(inp, cls);
    var whole := [seed] + IndicesOf(rs);
    PoolAfterSeedExact(inp, cls);
    assert whole[1..] == IndicesOf(rs);
    assert RoundStart(inp, rel, pool, Zeros(n), seed, 2, whole);
    RoundsScores(inp, rel, pool, Zeros(n), seed, 2, whole);
  }

  /** The index column of the ranking: the class, the seed, the picks of
      the selection loop and the useless attributes. */
  lemma RankSpecIndices(inp: RankInput, cls: nat)
    requires WellFormed(inp) && cls < |inp.names|
    ensures var ix := IndicesOf(RankSpec(inp, cls));
      ix == [cls, Seed(inp, cls)] + IndicesOf(Selected(inp, cls)) + UselessBelow(inp, cls, |inp.names|) &&
      PoolWithin(ix, |inp.names|)
  {
    var n := |inp.names|;
    IndicesOfRankSpec(inp, cls);
    UselessBelowExact(inp, cls, n);
    WithinConcat([cls, Seed(inp, cls)], IndicesOf(Selected(inp, cls)), UselessBelow(inp, cls, n), n);
  }

  lemma WithinConcat(a: seq<nat>, b: seq<nat>, c: seq<nat>, n: nat)
    requires PoolWithin(a, n) && PoolWithin(b, n) && PoolWithin(c, n)
    ensures PoolWithin(a + b + c, n)
  {
    forall j | 0 <= j < |a + b + c|
      ensures (a + b + c)[j] < n
    {
      if j >= |a| + |b| {
        assert (a + b + c)[j] == c[j - |a| - |b|];
      } else if j >= |a| {
        assert (a + b + c)[j] == b[j - |a|];
      }
    }
  }

  /** One record of the selection loop, placed at rank k of the whole
      result: its score is stated against the index column. */
  lemma ScoreInPlace(inp: RankInput, cls: nat, r: Record, whole: seq<nat>, ix: seq<nat>, k: nat)
    requires WellFormed(inp) && cls < |inp.names| && 2 <= k <= |whole|
    requires PoolWithin(ix, |inp.names|) && |ix| >= |whole| + 1 && ix[1..][..|whole|] == whole
    requires r.index < |inp.names| && Informative(inp, cls, r.index)
    requires ScoredPick(inp, Relevance(inp, cls), r, whole, k - 1)
    ensures r.mi == Fin(inp.mi[cls][r.index]) &&
      r.score == Fin(inp.mi[cls][r.index] - Redundancy(inp, ix[1..], k - 1, r.index) / (k - 1) as real)
  {
    assert ix[1..][..k - 1] == whole[..k - 1];
    RedundancyPrefix(inp, ix[1..], whole, k - 1, r.index);
  }

  /** Rank k of the result `rs` holds an informative attribute whose
      mutual information with the class is `mi[cls][i]` and whose score is
      that minus the mean of its mutual information with the attributes at
      ranks 1 .. k - 1. */
  ghost predicate MeanScoredAt(inp: RankInput, cls: nat, rs: seq<Record>, k: nat) {
    var ix := IndicesOf(rs);
    WellFormed(inp) && cls < |inp.names| && PoolWithin(ix, |inp.names|) && 2 <= k < |rs| &&
    rs[k].index < |inp.names| && Informative(inp, cls, rs[k].index) &&
    rs[k].mi == Fin(inp.mi[cls][rs[k].index]) &&
    rs[k].score == Fin(inp.mi[cls][rs[k].index] - Redundancy(inp, ix[1..], k - 1, rs[k].index) / (k - 1) as real)
  }

  /** The score statement of the selection loop's records, placed from rank
      2 on in a result `rs`. */
  lemma ScoresInPlace(inp: RankInput, cls: nat, rs: seq<Record>, sel: seq<Record>, whole: seq<nat>)
    requires WellFormed(inp) && cls < |inp.names|
    requires |rs| >= 2 + |sel| && |whole| == 1 + |sel| && forall j :: 0 <= j < |sel| ==> rs[2 + j] == sel[j]
    requires PoolWithin(IndicesOf(rs), |inp.names|) && IndicesOf(rs)[1..][..|whole|] == whole
    requires forall j :: 0 <= j < |sel| ==> sel[j].index < |inp.names| && Informative(inp, cls, sel[j].index)
    requires forall j :: 0 <= j < |sel| ==> ScoredPick(inp, Relevance(inp, cls), sel[j], whole, 1 + j)
    ensures forall k :: 2 <= k < 2 + |sel| ==> MeanScoredAt(inp, cls, rs, k)
  {
    forall k | 2 <= k < 2 + |sel|
      ensures MeanScoredAt(inp, cls, rs, k)
    {
      assert rs[k] == sel[k - 2];
      ScoreInPlace(inp, cls, sel[k - 2], whole, IndicesOf(rs), k);
    }
  }

  /** From rank 2 on, up to the last informative attribute, the score of each
      record is its relevance minus its mean redundancy with the attributes
      ranked before it (from rank 1 on). */
  lemma ScoresAreMeanRedundancy(inp: RankInput, cls: nat)
    requires WellFormed(inp) && cls < |inp.names|
    ensures forall k :: 2 <= k < 2 + |PoolAfterSeed(inp, cls)| ==> MeanScoredAt(inp, cls, RankSpec(inp, cls), k)
  {
    var sel := Selected(inp, cls);
    var whole := [Seed(inp, cls)] + IndicesOf(sel);
    var rs := RankSpec(inp, cls);
    var useless := UselessBelow(inp, cls, |inp.names|);
    RankSpecIndices(inp, cls);
    IndicesWindow(cls, Seed(inp, cls), IndicesOf(sel), useless);
    RankSpecParts(inp, cls);
    MiddleAt(Opening(inp, cls), sel, UselessRecords(inp, useless, 2 + |PoolAfterSeed(inp, cls)|));
    SelectedInformative(inp, cls);
    SelectedScored(inp, cls);
    ScoresInPlace(inp, cls, rs, sel, whole);
  }

  lemma IndicesWindow(a: nat, b: nat, sel: seq<nat>, tail: seq<nat>)
    ensures ([a, b] + sel + tail)[1..][..1 + |sel|] == [b] + sel
  {
    assert ([a, b] + sel + tail)[1..] == [b] + sel + tail;
  }

  lemma MiddleAt(head: seq<Record>, sel: seq<Record>, tail: seq<Record>)
    requires |head| == 2
    ensures forall j :: 0 <= j < |sel| ==> (head + sel + tail)[2 + j] == sel[j]
  {
  }

  /** Rank 0 is the class with its own entropy as mutual information and a
      NaN score; rank 1 is the first attribute of greatest relevance, scored
      by that relevance. */
  lemma HeadRecords(inp: RankInput, cls: nat)
    requires WellFormed(inp) && cls < |inp.names|
    ensures var rs, seed := RankSpec(inp, cls), Seed(inp, cls);
      |rs| >= 2 &&
      rs[0] == Record(0, cls, inp.names[cls], inp.entropy[cls], inp.entropy[cls], NaN) &&
      rs[1].index == seed && rs[1].entropy == inp.entropy[seed] &&
      rs[1].mi == rs[1].score == Relevance(inp, cls)[seed] &&
      forall i :: 0 <= i < |inp.names| ==> !Less(rs[1].score, Relevance(inp, cls)[i])
  {
    RankSpecParts(inp, cls);
    SeedIsFirstMaximum(inp, cls);
  }

  /** Rank k of `rs` holds a non-class attribute without positive entropy,
      reported with zero entropy, zero mutual information and a score of
      minus infinity. */
  ghost predicate UselessAt(inp: RankInput, cls: nat, rs: seq<Record>, k: nat) {
    k < |rs| && rs[k].index < |inp.entropy| && rs[k].index != cls && !Positive(inp.entropy[rs[k].index]) &&
    rs[k].entropy == Fin(0.0) && rs[k].mi == Fin(0.0) && rs[k].score == NegInf
  }

  lemma UselessInPlace(inp: RankInput, cls: nat, rs: seq<Record>, m: nat, useless: seq<nat>)
    requires |useless| <= |inp.entropy| == |inp.names|
    requires Ascending(useless)
    requires forall i: nat :: i in useless <==> i < |inp.entropy| && i != cls && !Positive(inp.entropy[i])
    requires PoolWithin(useless, |inp.names|)
    requires |rs| == m + |useless| && forall k :: m <= k < |rs| ==> rs[k] == UselessRecords(inp, useless, m)[k - m]
    ensures forall k :: m <= k < |rs| ==> UselessAt(inp, cls, rs, k)
    ensures forall k, l :: m <= k < l < |rs| ==> rs[k].index < rs[l].index
  {
    forall k | m <= k < |rs|
      ensures UselessAt(inp, cls, rs, k) && rs[k].index == useless[k - m]
    {
      assert useless[k - m] in useless;
    }
  }

  /** After the selection loop come the attributes without positive entropy
      (other than the class), in ascending order, with zero entropy, zero
      mutual information and a score of minus infinity. */
  lemma UselessLast(inp: RankInput, cls: nat)
    requires WellFormed(inp) && cls < |inp.names|
    ensures var rs, m := RankSpec(inp, cls), 2 + |PoolAfterSeed(inp, cls)|;
      m <= |rs| && (forall k :: m <= k < |rs| ==> UselessAt(inp, cls, rs, k)) &&
      (forall k, l :: m <= k < l < |rs| ==> rs[k].index < rs[l].index)
  {
    var n, pool := |inp.names|, PoolAfterSeed(inp, cls);
    var useless := UselessBelow(inp, cls, n);
    var head := Opening(inp, cls) + Rounds(inp, Relevance(inp, cls), pool, Zeros(n), Seed(inp, cls), 2);
    var tail := UselessRecords(inp, useless, 2 + |pool|);
    RankSpecParts(inp, cls);
    UselessBelowExact(inp, cls, n);
    TailAt(head, tail);
    UselessInPlace(inp, cls, head + tail, |head|, useless);
  }

  lemma TailAt(head: seq<Record>, tail: seq<Record>)
    ensures forall k :: |head| <= k < |head + tail| ==> (head + tail)[k] == tail[k - |head|]
  {
  }
}
