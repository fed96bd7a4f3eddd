/** Support and confidence of an antecedent over the labelled table
    (`compute_support_confidence_single_rule` and `compute_support_confidence`,
    functionalities.py:38-63). */
module Metrics {
  import opened Text
  import opened RuleModel
  import opened Evaluator

  /** Number of rows the evaluator answers True for (`matches.sum()`: NA is skipped). */
  function MatchCount(lits: seq<Literal>, data: Dataset): (n: nat)
    ensures n <= |data|
    decreases |data|
  {
    if data == [] then 0
    else
      MatchCount(lits, data[..|data| - 1])
      + (if MatchesAntecedent(data[|data| - 1], lits) == Match then 1 else 0)
  }

  /** Number of rows answered True whose target is true (`matches_with_target.sum()`). */
  function MatchTargetCount(lits: seq<Literal>, data: Dataset): (n: nat)
    ensures n <= MatchCount(lits, data)
    decreases |data|
  {
    if data == [] then 0
    else
      MatchTargetCount(lits, data[..|data| - 1])
      + (if MatchesAntecedent(data[|data| - 1], lits) == Match && Target(data[|data| - 1]) then 1 else 0)
  }

  function Ratio(a: nat, b: nat): (q: real)
    requires b > 0
    ensures a <= b ==> 0.0 <= q <= 1.0
  {
    a as real / b as real
  }

  lemma ZeroRatio(b: nat)
    requires b > 0
    ensures Ratio(0, b) == 0.0
  {
    var q := 0 as real / b as real;
    assert q * b as real == 0.0;
  }

  /** (support, confidence) of `A`, its literals examined in sorted order:
      support divides by every row, confidence by the rows answered True,
      and is 0.0 when there are none. */
  function SupportConfidence(A: Antecedent, data: Dataset): (sc: (real, real))
    requires |data| > 0
    ensures 0.0 <= sc.0 <= 1.0 && 0.0 <= sc.1 <= 1.0
  {
    var lits := Enumerate(A);
    var hits := MatchTargetCount(lits, data);
    var matched := MatchCount(lits, data);
    (Ratio(hits, |data|), if matched > 0 then Ratio(hits, matched) else 0.0)
  }

  /** The rule for `A` with its measured support and confidence. */
  function Evaluate(A: Antecedent, data: Dataset): (r: Rule)
    requires |data| > 0
    ensures r.ant == A
    ensures 0.0 <= r.support <= 1.0 && 0.0 <= r.confidence <= 1.0
  {
    var sc := SupportConfidence(A, data);
    Rule(A, sc.0, sc.1)
  }

  // ---------------------------------------------------------------------
  // The same quantities read off the table without the evaluator.
  // ---------------------------------------------------------------------

  /** Every literal of `A` is present in the row with the asked-for value. */
  predicate Satisfies(row: Row, A: Antecedent) {
    forall lit :: lit in A ==> Holds(row, lit)
  }

  /** Positions of the rows that satisfy `A`. */
  ghost function SatisfyingRows(A: Antecedent, data: Dataset): set<int> {
    set i | 0 <= i < |data| && Satisfies(data[i], A)
  }

  /** Positions of the rows that satisfy `A` and have a true target. */
  ghost function SupportingRows(A: Antecedent, data: Dataset): set<int> {
    set i | 0 <= i < |data| && Satisfies(data[i], A) && Target(data[i])
  }

  /** The evaluator answers True exactly on the rows that satisfy the antecedent,
      whatever order its literals are listed in. */
  lemma MatchIffSatisfies(row: Row, lits: seq<Literal>, A: Antecedent)
    requires forall x :: x in lits <==> x in A
    ensures MatchesAntecedent(row, lits) == Match <==> Satisfies(row, A)
  {
    MatchIffAllHold(row, lits);
    if Satisfies(row, A) {
      forall i | 0 <= i < |lits| ensures Holds(row, lits[i]) {
        assert lits[i] in A;
      }
    }
    if MatchesAntecedent(row, lits) == Match {
      forall lit | lit in A ensures Holds(row, lit) {
        assert lit in lits;
        var i :| 0 <= i < |lits| && lits[i] == lit;
      }
    }
  }

  /** Extending the table by one row adds at most that row's position. */
  lemma RowSetsGrow(A: Antecedent, data: Dataset, n: nat)
    requires n == |data| - 1
    ensures SatisfyingRows(A, data)
            == SatisfyingRows(A, data[..n]) + (if Satisfies(data[n], A) then {n} else {})
    ensures SupportingRows(A, data)
            == SupportingRows(A, data[..n]) + (if Satisfies(data[n], A) && Target(data[n]) then {n} else {})
  {
    var prefix := data[..n];
    assert forall i :: 0 <= i < n ==> prefix[i] == data[i];
  }

  /** The two counters equal the sizes of the row sets above, for any
      enumeration `lits` of `A`. */
  lemma {:induction false} CountsAreRowSets(lits: seq<Literal>, A: Antecedent, data: Dataset)
    requires forall x :: x in lits <==> x in A
    ensures MatchCount(lits, data) == |SatisfyingRows(A, data)|
    ensures MatchTargetCount(lits, data) == |SupportingRows(A, data)|
    decreases |data|
  {
    if data == [] {
      assert SatisfyingRows(A, data) == {};
      assert SupportingRows(A, data) == {};
    } else {
      var n := |data| - 1;
      CountsAreRowSets(lits, A, data[..n]);
      MatchIffSatisfies(data[n], lits, A);
      RowSetsGrow(A, data, n);
      assert n !in SatisfyingRows(A, data[..n]);
      assert n !in SupportingRows(A, data[..n]);
    }
  }

  /** support = #(rows satisfying A with a true target) / #rows, and
      confidence = the same count / #(rows satisfying A), or 0.0 when no row does. */
  lemma SupportConfidenceMeaning(A: Antecedent, data: Dataset)
    requires |data| > 0
    ensures SupportConfidence(A, data).0 == |SupportingRows(A, data)| as real / |data| as real
    ensures SupportConfidence(A, data).1 ==
            if |SatisfyingRows(A, data)| > 0
            then |SupportingRows(A, data)| as real / |SatisfyingRows(A, data)| as real
            else 0.0
  {
    CountsAreRowSets(Enumerate(A), A, data);
  }

  /** Support and confidence do not depend on the order the evaluator reads
      the literals in: any enumeration of `A` gives the same counts. */
  lemma CountsIgnoreOrder(s1: seq<Literal>, s2: seq<Literal>, data: Dataset)
    requires forall x :: x in s1 <==> x in s2
    ensures MatchCount(s1, data) == MatchCount(s2, data)
    ensures MatchTargetCount(s1, data) == MatchTargetCount(s2, data)
  {
    var A := set x | x in s1;
    CountsAreRowSets(s1, A, data);
    CountsAreRowSets(s2, A, data);
  }

  /** Appending a row adds that row's contribution to each counter. */
  lemma CountsOfAppendedRow(lits: seq<Literal>, data: Dataset, row: Row)
    ensures MatchCount(lits, data + [row])
            == MatchCount(lits, data) + (if MatchesAntecedent(row, lits) == Match then 1 else 0)
    ensures MatchTargetCount(lits, data + [row])
            == MatchTargetCount(lits, data) + (if MatchesAntecedent(row, lits) == Match && Target(row) then 1 else 0)
  {
    assert (data + [row])[..|data|] == data;
  }

  /** A row on which the antecedent is not True (whether False or NA) leaves
      confidence unchanged and only enlarges support's denominator. */
  lemma UnmatchedRowOnlyDilutesSupport(A: Antecedent, data: Dataset, row: Row)
    requires |data| > 0
    requires !Satisfies(row, A)
    ensures SupportConfidence(A, data + [row]).1 == SupportConfidence(A, data).1
    ensures SupportConfidence(A, data + [row]).0
            == |SupportingRows(A, data)| as real / (|data| + 1) as real
  {
    var lits := Enumerate(A);
    MatchIffSatisfies(row, lits, A);
    CountsOfAppendedRow(lits, data, row);
    CountsAreRowSets(lits, A, data);
  }

  /** No row satisfying the antecedent: support and confidence are both zero. */
  lemma NoMatchGivesZero(A: Antecedent, data: Dataset)
    requires |data| > 0
    requires forall i :: 0 <= i < |data| ==> !Satisfies(data[i], A)
    ensures SupportConfidence(A, data) == (0.0, 0.0)
  {
    var lits := Enumerate(A);
    assert SatisfyingRows(A, data) == {};
    CountsAreRowSets(lits, A, data);
    assert MatchTargetCount(lits, data) == 0;
    ZeroRatio(|data|);
  }

  // ---------------------------------------------------------------------
  // compute_support_confidence: one (support, confidence) per rule.
  // ---------------------------------------------------------------------

  /** Appending the next antecedent's measures to the two lists keeps them
      the measures of the antecedents so far. */
  lemma MeasuredPrefixGrows(ants: seq<Antecedent>, data: Dataset, supports: seq<real>,
                            confidences: seq<real>, sc: (real, real))
    requires |data| > 0
    requires |supports| == |confidences| < |ants|
    requires forall k :: 0 <= k < |supports| ==>
               Rule(ants[k], supports[k], confidences[k]) == Evaluate(ants[k], data)
    requires sc == SupportConfidence(ants[|supports|], data)
    ensures forall k :: 0 <= k < |supports| + 1 ==>
              Rule(ants[k], (supports + [sc.0])[k], (confidences + [sc.1])[k]) == Evaluate(ants[k], data)
  {
    var n := |supports|;
    forall k | 0 <= k < n + 1
      ensures Rule(ants[k], (supports + [sc.0])[k], (confidences + [sc.1])[k]) == Evaluate(ants[k], data)
    {
      if k < n {
        assert (supports + [sc.0])[k] == supports[k] && (confidences + [sc.1])[k] == confidences[k];
      }
    }
  }

  /** Measures every antecedent, in order, collecting the supports and the
      confidences in two lists that become the rules' two new fields. */
  method ComputeSupportConfidence(ants: seq<Antecedent>, data: Dataset) returns (rules: seq<Rule>)
    requires |data| > 0
    ensures |rules| == |ants|
    ensures forall i :: 0 <= i < |ants| ==> rules[i] == Evaluate(ants[i], data)
  {
    var supports: seq<real> := [];
    var confidences: seq<real> := [];
    for i := 0 to |ants|
      invariant |supports| == i && |confidences| == i
      invariant forall k :: 0 <= k < i ==> Rule(ants[k], supports[k], confidences[k]) == Evaluate(ants[k], data)
    {
      var sc := SupportConfidence(ants[i], data);
      MeasuredPrefixGrows(ants, data, supports, confidences, sc);
      supports := supports + [sc.0];
      confidences := confidences + [sc.1];
    }
    rules := seq(|ants|, k requires 0 <= k < |ants| => Rule(ants[k], supports[k], confidences[k]));
  }
}
