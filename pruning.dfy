/** Removal of overly specific rules (`prune_overly_specific_rules`,
    functionalities.py:66-78). */
module Pruning {
  import opened RuleModel

  /** A more general rule must reach this share of a rule's confidence to make it redundant. */
  const Closeness: real := 0.98

  /** Rule `j` makes rule `i` redundant: it is another rule, its antecedent is a
      subset of rule `i`'s (possibly equal), and its confidence is at least 98 %
      of rule `i`'s. */
  predicate Subsumes(rules: seq<Rule>, j: int, i: int)
    requires 0 <= j < |rules| && 0 <= i < |rules|
  {
    j != i && rules[j].ant <= rules[i].ant && rules[j].confidence >= Closeness * rules[i].confidence
  }

  /** `is_overly_specific`: some other rule of the whole input makes rule `i` redundant
      (the scan that returns at the first such rule). */
  predicate OverlySpecific(rules: seq<Rule>, i: int)
    requires 0 <= i < |rules|
  {
    exists j :: 0 <= j < |rules| && Subsumes(rules, j, i)
  }

  /** The rules among the first `n` that are not overly specific, in input order.
      Every decision is taken against the whole input `rules`. */
  function SurvivorsUpTo(rules: seq<Rule>, n: nat): (kept: seq<Rule>)
    requires n <= |rules|
    ensures |kept| <= n
  {
    if n == 0 then []
    else SurvivorsUpTo(rules, n - 1) + (if OverlySpecific(rules, n - 1) then [] else [rules[n - 1]])
  }

  /** The input without its overly specific rules. */
  function Prune(rules: seq<Rule>): (kept: seq<Rule>)
    ensures |kept| <= |rules|
  {
    SurvivorsUpTo(rules, |rules|)
  }

  /** The input positions of the survivors among the first `n` rules. */
  ghost function SurvivorIndices(rules: seq<Rule>, n: nat): seq<int>
    requires n <= |rules|
  {
    if n == 0 then []
    else SurvivorIndices(rules, n - 1) + (if OverlySpecific(rules, n - 1) then [] else [n - 1])
  }

  /** The pruned list is the subsequence of the input at increasing positions,
      and position `i` is among them exactly when rule `i` is not overly specific. */
  lemma {:induction false} PruneCharacterisation(rules: seq<Rule>, n: nat)
    requires n <= |rules|
    ensures var idx := SurvivorIndices(rules, n);
            var kept := SurvivorsUpTo(rules, n);
            && |kept| == |idx|
            && (forall k :: 0 <= k < |idx| ==> 0 <= idx[k] < n && kept[k] == rules[idx[k]])
            && (forall k, l :: 0 <= k < l < |idx| ==> idx[k] < idx[l])
            && (forall i :: 0 <= i < n ==> (i in idx <==> !OverlySpecific(rules, i)))
  {
    if n > 0 {
      PruneCharacterisation(rules, n - 1);
    }
  }

  /** Two copies of the same rule (with a confidence that is not negative) make
      each other redundant, so neither survives. */
  lemma DuplicatesDropEachOther(rules: seq<Rule>, i: int, j: int)
    requires 0 <= i < |rules| && 0 <= j < |rules| && i != j
    requires rules[i] == rules[j] && rules[i].confidence >= 0.0
    ensures OverlySpecific(rules, i) && OverlySpecific(rules, j)
  {
    assert Subsumes(rules, j, i);
    assert Subsumes(rules, i, j);
  }

  /** When confidences are not negative, the survivors have pairwise distinct
      antecedents, and no survivor makes another redundant. */
  lemma PrunedRulesAreIncomparable(rules: seq<Rule>)
    requires forall i :: 0 <= i < |rules| ==> rules[i].confidence >= 0.0
    ensures var kept := Prune(rules);
            && (forall k, l :: 0 <= k < l < |kept| ==> kept[k].ant != kept[l].ant)
            && (forall k, l :: 0 <= k < |kept| && 0 <= l < |kept| && k != l && kept[l].ant <= kept[k].ant
                  ==> kept[l].confidence < Closeness * kept[k].confidence)
  {
    var n := |rules|;
    PruneCharacterisation(rules, n);
    var idx := SurvivorIndices(rules, n);
    var kept := Prune(rules);
    forall k, l | 0 <= k < |kept| && 0 <= l < |kept| && k != l && kept[l].ant <= kept[k].ant
      ensures kept[l].confidence < Closeness * kept[k].confidence
    {
      assert idx[k] != idx[l];
      assert idx[k] in idx;
      assert !Subsumes(rules, idx[l], idx[k]);
    }
    forall k, l | 0 <= k < l < |kept| ensures kept[k].ant != kept[l].ant {
      assert idx[k] in idx && idx[l] in idx;
      assert !Subsumes(rules, idx[l], idx[k]) && !Subsumes(rules, idx[k], idx[l]);
      if kept[k].confidence <= kept[l].confidence {
        assert kept[l].confidence >= Closeness * kept[k].confidence;
      } else {
        assert kept[k].confidence >= Closeness * kept[l].confidence;
      }
    }
  }

  /** Every survivor is an input rule. */
  lemma SurvivorsAreInputRules(rules: seq<Rule>)
    ensures forall r :: r in Prune(rules) ==> r in rules
  {
    PruneCharacterisation(rules, |rules|);
  }

  /** The incomparability of survivors, stated for any two survivors with
      different antecedents. */
  lemma SurvivorsDoNotSubsume(rules: seq<Rule>, x: Rule, y: Rule)
    requires forall i :: 0 <= i < |rules| ==> rules[i].confidence >= 0.0
    requires x in Prune(rules) && y in Prune(rules) && x.ant != y.ant
    ensures y.ant <= x.ant ==> y.confidence < Closeness * x.confidence
  {
    var kept := Prune(rules);
    PrunedRulesAreIncomparable(rules);
    var k :| 0 <= k < |kept| && kept[k] == x;
    var l :| 0 <= l < |kept| && kept[l] == y;
    assert k != l;
  }

  lemma {:induction false} SubsetIsNotLarger(a: Antecedent, b: Antecedent)
    requires a <= b
    ensures |a| <= |b|
    decreases |a|
  {
    if a != {} {
      var y :| y in a;
      SubsetIsNotLarger(a - {y}, b - {y});
    }
  }

  lemma StrictSubsetIsSmaller(a: Antecedent, b: Antecedent)
    requires a <= b && a != b
    ensures |a| < |b|
  {
    var x :| x in b && x !in a;
    SubsetIsNotLarger(a, b - {x});
  }

  /** A position whose antecedent has no more literals than any other. */
  lemma {:induction false} SmallestAntecedent(rules: seq<Rule>) returns (m: int)
    requires |rules| > 0
    ensures 0 <= m < |rules|
    ensures forall j :: 0 <= j < |rules| ==> |rules[m].ant| <= |rules[j].ant|
  {
    if |rules| == 1 {
      m := 0;
    } else {
      var p := SmallestAntecedent(rules[..|rules| - 1]);
      assert forall j :: 0 <= j < |rules| - 1 ==> rules[..|rules| - 1][j] == rules[j];
      m := if |rules[|rules| - 1].ant| < |rules[p].ant| then |rules| - 1 else p;
    }
  }

  /** With pairwise distinct antecedents a non-empty input never loses all its
      rules: a rule with a smallest antecedent survives. */
  lemma PruneKeepsAMostGeneralRule(rules: seq<Rule>)
    requires |rules| > 0
    requires forall i, j :: 0 <= i < j < |rules| ==> rules[i].ant != rules[j].ant
    ensures |Prune(rules)| > 0
  {
    var m := SmallestAntecedent(rules);
    forall j | 0 <= j < |rules| ensures !Subsumes(rules, j, m) {
      if j != m && rules[j].ant <= rules[m].ant {
        StrictSubsetIsSmaller(rules[j].ant, rules[m].ant);
      }
    }
    PruneCharacterisation(rules, |rules|);
    assert m in SurvivorIndices(rules, |rules|);
  }
}
