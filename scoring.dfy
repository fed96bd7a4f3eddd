/** Ranking of the merged rules (`score_rules`, functionalities.py:129-131). */
module Scoring {
  import opened RuleModel

  /** A rule with the score it is ranked by. */
  datatype ScoredRule = ScoredRule(rule: Rule, score: real)

  /** alpha * confidence + (1 - alpha) * support. */
  function Score(r: Rule, alpha: real): real {
    alpha * r.confidence + (1.0 - alpha) * r.support
  }

  /** With alpha in [0, 1] the score lies between support and confidence:
      it is their weighted mean. */
  lemma ScoreBetween(r: Rule, alpha: real)
    requires 0.0 <= alpha <= 1.0
    ensures (r.support <= Score(r, alpha) <= r.confidence) || (r.confidence <= Score(r, alpha) <= r.support)
  {
    var d := r.confidence - r.support;
    assert Score(r, alpha) == r.support + alpha * d;
    if d >= 0.0 {
      assert 0.0 <= alpha * d <= 1.0 * d;
    } else {
      assert 1.0 * d <= alpha * d <= 0.0;
    }
  }

  /** With alpha in [0, 1] and both measures in [0, 1], so is the score. */
  lemma ScoreInUnitInterval(r: Rule, alpha: real)
    requires 0.0 <= alpha <= 1.0
    requires 0.0 <= r.support <= 1.0 && 0.0 <= r.confidence <= 1.0
    ensures 0.0 <= Score(r, alpha) <= 1.0
  {
    ScoreBetween(r, alpha);
  }

  /** A rule at least as good on both measures scores at least as high. */
  lemma ScoreMonotone(r1: Rule, r2: Rule, alpha: real)
    requires 0.0 <= alpha <= 1.0
    requires r1.support <= r2.support && r1.confidence <= r2.confidence
    ensures Score(r1, alpha) <= Score(r2, alpha)
  {
    assert alpha * r1.confidence <= alpha * r2.confidence;
    assert (1.0 - alpha) * r1.support <= (1.0 - alpha) * r2.support;
  }

  /** Scores never increase from left to right. */
  predicate SortedByScore(s: seq<ScoredRule>) {
    forall i, j :: 0 <= i < j < |s| ==> s[i].score >= s[j].score
  }

  /** Rules whose scores never increase from left to right. */
  predicate RanksDescending(rules: seq<Rule>, alpha: real) {
    forall i, j :: 0 <= i < j < |rules| ==> Score(rules[i], alpha) >= Score(rules[j], alpha)
  }

  /** A rule scoring at least as high as the head of a ranking can go in front of it. */
  lemma PrependRanked(x: Rule, rest: seq<Rule>, alpha: real)
    requires RanksDescending(rest, alpha)
    requires rest == [] || Score(x, alpha) >= Score(rest[0], alpha)
    ensures RanksDescending([x] + rest, alpha)
  {
    var t := [x] + rest;
    forall i, j | 0 <= i < j < |t| ensures Score(t[i], alpha) >= Score(t[j], alpha) {
      if i == 0 && j > 1 {
        assert Score(rest[0], alpha) >= Score(rest[j - 1], alpha);
      }
    }
  }

  /** Puts `r` in front of the first rule with a lower score. */
  function Insert(r: Rule, rules: seq<Rule>, alpha: real): (t: seq<Rule>)
    requires RanksDescending(rules, alpha)
    ensures RanksDescending(t, alpha)
    ensures multiset(t) == multiset(rules) + multiset{r}
    ensures t != [] && (t[0] == r || (rules != [] && t[0] == rules[0]))
  {
    if rules == [] || Score(r, alpha) >= Score(rules[0], alpha) then
      PrependRanked(r, rules, alpha);
      [r] + rules
    else
      TailRanked(rules, alpha);
      var rest := Insert(r, rules[1..], alpha);
      PrependRanked(rules[0], rest, alpha);
      KeptBehindHead(rules, rest, r);
      [rules[0]] + rest
  }

  /** Dropping the head of a ranking leaves a ranking. */
  lemma TailRanked(rules: seq<Rule>, alpha: real)
    requires rules != [] && RanksDescending(rules, alpha)
    ensures RanksDescending(rules[1..], alpha)
  {
    var tail := rules[1..];
    forall i, j | 0 <= i < j < |tail| ensures Score(tail[i], alpha) >= Score(tail[j], alpha) {
      assert tail[i] == rules[i + 1] && tail[j] == rules[j + 1];
    }
  }

  /** Putting the head back in front of the tail with `r` inserted gives the
      whole list plus `r`. */
  lemma KeptBehindHead(rules: seq<Rule>, rest: seq<Rule>, r: Rule)
    requires rules != []
    requires multiset(rest) == multiset(rules[1..]) + multiset{r}
    ensures multiset([rules[0]] + rest) == multiset(rules) + multiset{r}
  {
    assert rules == [rules[0]] + rules[1..];
  }

  /** The rules ordered by non-increasing score; the order among equal scores
      is not promised. */
  function SortByScore(rules: seq<Rule>, alpha: real): (t: seq<Rule>)
    ensures RanksDescending(t, alpha)
    ensures multiset(t) == multiset(rules)
  {
    if rules == [] then []
    else
      assert rules == [rules[0]] + rules[1..];
      Insert(rules[0], SortByScore(rules[1..], alpha), alpha)
  }

  /** Each rule with its score, in the given order. */
  function WithScores(rules: seq<Rule>, alpha: real): (s: seq<ScoredRule>)
    ensures |s| == |rules|
    ensures forall i :: 0 <= i < |rules| ==> s[i] == ScoredRule(rules[i], Score(rules[i], alpha))
  {
    seq(|rules|, i requires 0 <= i < |rules| => ScoredRule(rules[i], Score(rules[i], alpha)))
  }

  /** The rules behind a ranking. */
  function Unscored(s: seq<ScoredRule>): (rules: seq<Rule>)
    ensures |rules| == |s|
    ensures forall i :: 0 <= i < |s| ==> rules[i] == s[i].rule
  {
    seq(|s|, i requires 0 <= i < |s| => s[i].rule)
  }

  /** Every entry carries its own rule's score. */
  predicate ScoresAreExact(s: seq<ScoredRule>, alpha: real) {
    forall i :: 0 <= i < |s| ==> s[i].score == Score(s[i].rule, alpha)
  }

  /** The rules ranked by descending score, each with its score: a permutation
      of the input. */
  function ScoreRules(rules: seq<Rule>, alpha: real): (ranked: seq<ScoredRule>)
    ensures |ranked| == |rules|
    ensures SortedByScore(ranked)
    ensures ScoresAreExact(ranked, alpha)
    ensures multiset(Unscored(ranked)) == multiset(rules)
  {
    var sorted := SortByScore(rules, alpha);
    assert |sorted| == |multiset(sorted)| == |rules|;
    var ranked := WithScores(sorted, alpha);
    assert Unscored(ranked) == sorted;
    ranked
  }

  /** Two equal entries at different positions count twice. */
  lemma RepeatCountsTwice(t: seq<Rule>, i: int, j: int)
    requires 0 <= i < j < |t|
    ensures t[i] == t[j] ==> multiset(t)[t[i]] >= 2
  {
    if t[i] == t[j] {
      assert t == t[..j] + [t[j]] + t[j + 1..];
      assert t[..j][i] == t[i];
      assert multiset(t[..j])[t[i]] >= 1;
    }
  }

  /** Rules with pairwise different antecedents occur at most once each. */
  lemma {:induction false} DistinctAntecedentsOccurOnce(s: seq<Rule>, x: Rule)
    requires forall i, j :: 0 <= i < j < |s| ==> s[i].ant != s[j].ant
    ensures multiset(s)[x] <= 1
  {
    if s != [] {
      assert s == [s[0]] + s[1..];
      DistinctAntecedentsOccurOnce(s[1..], x);
      if x == s[0] {
        forall k | 0 <= k < |s[1..]| ensures s[1..][k] != x {
          assert s[1..][k] == s[k + 1];
        }
        assert x !in s[1..];
      }
    }
  }

  /** Ranking keeps antecedents pairwise different. */
  lemma RankingKeepsAntecedentsDistinct(rules: seq<Rule>, alpha: real)
    requires forall i, j :: 0 <= i < j < |rules| ==> rules[i].ant != rules[j].ant
    ensures var ranked := ScoreRules(rules, alpha);
            forall i, j :: 0 <= i < j < |ranked| ==> ranked[i].rule.ant != ranked[j].rule.ant
  {
    var ranked := ScoreRules(rules, alpha);
    var t := Unscored(ranked);
    forall i, j | 0 <= i < j < |ranked| ensures ranked[i].rule.ant != ranked[j].rule.ant {
      RepeatCountsTwice(t, i, j);
      DistinctAntecedentsOccurOnce(rules, t[i]);
      assert t[i] in multiset(rules) && t[j] in multiset(rules);
      var a :| 0 <= a < |rules| && rules[a] == t[i];
      var b :| 0 <= b < |rules| && rules[b] == t[j];
      assert a != b;
      if a < b {
        assert rules[a].ant != rules[b].ant;
      } else {
        assert rules[b].ant != rules[a].ant;
      }
    }
  }
}
