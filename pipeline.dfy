/** The whole compression run (`parse_and_prune_ruleset`,
    functionalities.py:141-156): parse, measure, filter by the thresholds,
    prune, merge, rank and render the saved text. */
module Pipeline {
  import opened Text
  import opened RuleModel
  import opened Metrics
  import opened Pruning
  import opened Merging
  import opened Scoring
  import opened Parsing

  /** The merge step's default bound on rounds. */
  const DefaultMaxIterations: int := 10000

  /** Why a run produces no ruleset. */
  datatype PipelineError =
    | Malformed(cause: ParseError)
      // nothing reaches the ranking step (the source fails on the empty table:
      // pruning cannot drop its flag column, or ranking finds no Confidence column)
    | NoRulesLeft

  /** The ranked rules and the text written to the output file. */
  datatype Report = Report(ranked: seq<ScoredRule>, text: string)

  /** The rules meeting both thresholds, in input order. */
  function KeepQualifying(rules: seq<Rule>, minSupport: real, minConfidence: real): (kept: seq<Rule>)
    ensures |kept| <= |rules|
    ensures forall r :: r in kept <==> r in rules && MeetsThresholds(r, minSupport, minConfidence)
  {
    if rules == [] then []
    else
      (if MeetsThresholds(rules[0], minSupport, minConfidence) then [rules[0]] else [])
      + KeepQualifying(rules[1..], minSupport, minConfidence)
  }

  /** Every antecedent measured against the table, in input order. */
  function MeasureAll(ants: seq<Antecedent>, data: Dataset): (rules: seq<Rule>)
    requires |data| > 0
    ensures |rules| == |ants|
    ensures forall k :: 0 <= k < |ants| ==> rules[k] == Evaluate(ants[k], data)
  {
    seq(|ants|, k requires 0 <= k < |ants| => Evaluate(ants[k], data))
  }

  /** The rules a run over `ants` hands to the ranking step: measured,
      filtered by the thresholds, pruned and merged with the default bound. */
  function Compressed(ants: seq<Antecedent>, data: Dataset, minSupport: real, minConfidence: real)
    : seq<Rule>
    requires |data| > 0
  {
    var pruned := Prune(KeepQualifying(MeasureAll(ants, data), minSupport, minConfidence));
    MergeRun(pruned, data, minSupport, minConfidence, DefaultMaxIterations)
  }

  /** Every line of the rule text parses. */
  predicate AllLinesParse(raw: string) {
    forall k :: 0 <= k < |RuleLines(raw)| ==> ParseLine(RuleLines(raw)[k]).Success?
  }

  /** The antecedents of the lines of a rule text that parses throughout. */
  function LineAntecedents(raw: string): (ants: seq<Antecedent>)
    requires AllLinesParse(raw)
    ensures |ants| == |RuleLines(raw)|
    ensures forall k :: 0 <= k < |ants| ==> Success(ants[k]) == ParseLine(RuleLines(raw)[k])
  {
    var lines := RuleLines(raw);
    seq(|lines|, k requires 0 <= k < |lines| => ParseLine(lines[k]).value)
  }

  /** The antecedents of the ranked rules, in rank order. */
  function RankedAntecedents(ranked: seq<ScoredRule>): (ants: seq<Antecedent>)
    ensures |ants| == |ranked|
    ensures forall i :: 0 <= i < |ranked| ==> ants[i] == ranked[i].rule.ant
  {
    seq(|ranked|, i requires 0 <= i < |ranked| => ranked[i].rule.ant)
  }

  /** A rule as the measuring step produced it for one of the antecedents `ants`. */
  predicate Measured(ants: seq<Antecedent>, data: Dataset, r: Rule)
    requires |data| > 0
  {
    r == Evaluate(r.ant, data) && r.ant in ants
  }

  /** Every rule of `rules` was measured from `ants` and meets both thresholds. */
  predicate AllQualify(ants: seq<Antecedent>, data: Dataset, minSupport: real, minConfidence: real,
                       rules: seq<Rule>)
    requires |data| > 0
  {
    forall r :: r in rules ==> Measured(ants, data, r) && MeetsThresholds(r, minSupport, minConfidence)
  }

  /** No rule of `rules` makes another one with a different antecedent redundant. */
  predicate NoneRedundant(rules: seq<Rule>) {
    forall x, y :: x in rules && y in rules && x.ant != y.ant && y.ant <= x.ant ==>
      y.confidence < Closeness * x.confidence
  }

  /** Filtering the measured rules and pruning keep only measured rules meeting
      both thresholds, none of which makes another redundant. */
  lemma SurvivorsQualify(ants: seq<Antecedent>, data: Dataset, measured: seq<Rule>,
                         minSupport: real, minConfidence: real)
    requires |data| > 0
    requires |measured| == |ants|
    requires forall k :: 0 <= k < |ants| ==> measured[k] == Evaluate(ants[k], data)
    ensures var pruned := Prune(KeepQualifying(measured, minSupport, minConfidence));
            AllQualify(ants, data, minSupport, minConfidence, pruned) && NoneRedundant(pruned)
  {
    var qualifying := KeepQualifying(measured, minSupport, minConfidence);
    var pruned := Prune(qualifying);
    SurvivorsAreInputRules(qualifying);
    forall q | q in measured ensures Measured(ants, data, q) {
      var k :| 0 <= k < |measured| && measured[k] == q;
    }
    forall i | 0 <= i < |qualifying| ensures qualifying[i].confidence >= 0.0 {
      assert qualifying[i] in measured;
    }
    forall x, y | x in pruned && y in pruned && x.ant != y.ant && y.ant <= x.ant
      ensures y.confidence < Closeness * x.confidence
    {
      SurvivorsDoNotSubsume(qualifying, x, y);
    }
  }

  /** Filtering rules none of which meets the thresholds leaves nothing. */
  lemma {:induction false} NothingQualifies(rules: seq<Rule>, minSupport: real, minConfidence: real)
    requires forall k :: 0 <= k < |rules| ==> !MeetsThresholds(rules[k], minSupport, minConfidence)
    ensures KeepQualifying(rules, minSupport, minConfidence) == []
  {
    if rules != [] {
      NothingQualifies(rules[1..], minSupport, minConfidence);
    }
  }

  /** Pruning alone can leave nothing to rank. With both thresholds at zero
      the same rule line twice passes the filter in both copies, and the two
      copies make each other overly specific. */
  lemma DuplicateLinesLeaveNothing(A: Antecedent, data: Dataset)
    requires |data| > 0
    ensures var r := Evaluate(A, data);
            && KeepQualifying(MeasureAll([A, A], data), 0.0, 0.0) == [r, r]
            && Prune([r, r]) == []
            && Compressed([A, A], data, 0.0, 0.0) == []
  {
    var r := Evaluate(A, data);
    assert MeasureAll([A, A], data) == [r, r];
    assert KeepQualifying([r, r], 0.0, 0.0) == [r, r] by {
      assert KeepQualifying([r], 0.0, 0.0) == [r];
      assert [r, r][1..] == [r];
    }
    assert Prune([r, r]) == [] by {
      DuplicatesDropEachOther([r, r], 0, 1);
      assert SurvivorsUpTo([r, r], 1) == [];
    }
    assert MergeRun([], data, 0.0, 0.0, DefaultMaxIterations) == [];
  }

  /** A ranking as the run promises it: no antecedent twice, no rule that
      another makes redundant, best score first, each score the weighted mix
      of confidence and support. */
  predicate WellRanked(ranked: seq<ScoredRule>, alpha: real) {
    && (forall i, j :: 0 <= i < j < |ranked| ==> ranked[i].rule.ant != ranked[j].rule.ant)
    && (forall i, j ::
          (0 <= i < |ranked| && 0 <= j < |ranked| && i != j && ranked[j].rule.ant <= ranked[i].rule.ant) ==>
          ranked[j].rule.confidence < Closeness * ranked[i].rule.confidence)
    && SortedByScore(ranked) && ScoresAreExact(ranked, alpha)
  }

  /** Every ranked rule is one of the rules ranked. */
  lemma RankedAreInputs(rules: seq<Rule>, alpha: real)
    ensures var ranked := ScoreRules(rules, alpha);
            forall i :: 0 <= i < |ranked| ==> ranked[i].rule in rules
  {
    var ranked := ScoreRules(rules, alpha);
    forall i | 0 <= i < |ranked| ensures ranked[i].rule in rules {
      assert Unscored(ranked)[i] == ranked[i].rule;
      assert ranked[i].rule in multiset(rules);
    }
  }

  /** Rules at different positions of a ranking with distinct antecedents do
      not make one another redundant when the rules ranked do not. */
  lemma RankingNoneRedundant(rules: seq<Rule>, ranked: seq<ScoredRule>)
    requires NoneRedundant(rules)
    requires forall i :: 0 <= i < |ranked| ==> ranked[i].rule in rules
    requires forall i, j :: 0 <= i < j < |ranked| ==> ranked[i].rule.ant != ranked[j].rule.ant
    ensures forall i, j ::
              (0 <= i < |ranked| && 0 <= j < |ranked| && i != j && ranked[j].rule.ant <= ranked[i].rule.ant) ==>
              ranked[j].rule.confidence < Closeness * ranked[i].rule.confidence
  {
    forall i, j | 0 <= i < |ranked| && 0 <= j < |ranked| && i != j && ranked[j].rule.ant <= ranked[i].rule.ant
      ensures ranked[j].rule.confidence < Closeness * ranked[i].rule.confidence
    {
      if i < j {
        assert ranked[i].rule.ant != ranked[j].rule.ant;
      } else {
        assert ranked[j].rule.ant != ranked[i].rule.ant;
      }
    }
  }

  /** The ranking of merged survivors keeps what the survivors had. */
  lemma RankingInherits(ants: seq<Antecedent>, data: Dataset, minSupport: real, minConfidence: real,
                        pruned: seq<Rule>, merged: seq<Rule>, alpha: real)
    requires |data| > 0
    requires AllQualify(ants, data, minSupport, minConfidence, pruned) && NoneRedundant(pruned)
    requires forall k :: 0 <= k < |merged| ==> merged[k] in pruned
    requires forall k, l :: 0 <= k < l < |merged| ==> merged[k].ant != merged[l].ant
    ensures var ranked := ScoreRules(merged, alpha);
            && (forall i :: 0 <= i < |ranked| ==>
                  Measured(ants, data, ranked[i].rule)
                  && MeetsThresholds(ranked[i].rule, minSupport, minConfidence))
            && WellRanked(ranked, alpha)
  {
    var ranked := ScoreRules(merged, alpha);
    RankingKeepsAntecedentsDistinct(merged, alpha);
    RankedAreInputs(merged, alpha);
    forall i | 0 <= i < |ranked| ensures ranked[i].rule in pruned {
      var k :| 0 <= k < |merged| && merged[k] == ranked[i].rule;
    }
    RankingNoneRedundant(pruned, ranked);
  }

  /** The merge step with the default bound, seen only through what the rest
      of the run relies on. */
  method MergeSurvivors(pruned: seq<Rule>, data: Dataset, minSupport: real, minConfidence: real)
    returns (merged: seq<Rule>)
    requires |data| > 0
    ensures |merged| <= |pruned|
    ensures forall k :: 0 <= k < |merged| ==> merged[k] in pruned
    ensures forall k, l :: 0 <= k < l < |merged| ==> merged[k].ant != merged[l].ant
    ensures merged == MergeRun(pruned, data, minSupport, minConfidence, DefaultMaxIterations)
  {
    ghost var seen, log, rounds;
    merged, seen, log, rounds := MergeRules(pruned, data, minSupport, minConfidence, DefaultMaxIterations);
  }

  /** Everything after parsing: measure each antecedent, keep the rules that
      meet both thresholds, prune, merge and rank. */
  method CompressRules(ants: seq<Antecedent>, data: Dataset, alpha: real,
                       minSupport: real, minConfidence: real)
    returns (r: Result<seq<ScoredRule>, PipelineError>)
    requires |data| > 0
    ensures r.Failure? ==> r.error == NoRulesLeft
    // the run fails exactly when measuring, filtering, pruning and merging leave nothing
    ensures r.Failure? <==> Compressed(ants, data, minSupport, minConfidence) == []
    ensures r.Success? ==> r.value == ScoreRules(Compressed(ants, data, minSupport, minConfidence), alpha)
    // when no antecedent's rule meets both thresholds, nothing is left to rank
    ensures (forall k :: 0 <= k < |ants| ==> !MeetsThresholds(Evaluate(ants[k], data), minSupport, minConfidence))
            ==> r.Failure?
    ensures r.Success? ==>
              var ranked := r.value;
              // at least one rule, and no more than there were antecedents
              && 0 < |ranked| <= |ants|
              // each is measured from an input antecedent and meets both thresholds
              && (forall i :: 0 <= i < |ranked| ==>
                    Measured(ants, data, ranked[i].rule)
                    && MeetsThresholds(ranked[i].rule, minSupport, minConfidence))
              // distinct, none redundant, best score first with exact scores
              && WellRanked(ranked, alpha)
  {
    var measured := ComputeSupportConfidence(ants, data);
    assert measured == MeasureAll(ants, data);
    var qualifying := KeepQualifying(measured, minSupport, minConfidence);
    var pruned := Prune(qualifying);
    var merged := MergeSurvivors(pruned, data, minSupport, minConfidence);
    SurvivorsQualify(ants, data, measured, minSupport, minConfidence);
    if forall k :: 0 <= k < |ants| ==> !MeetsThresholds(Evaluate(ants[k], data), minSupport, minConfidence) {
      NothingQualifies(measured, minSupport, minConfidence);
    }
    if merged == [] {
      return Failure(NoRulesLeft);
    }
    var ranked := ScoreRules(merged, alpha);
    RankingInherits(ants, data, minSupport, minConfidence, pruned, merged, alpha);
    return Success(ranked);
  }

  /** A rule as the run reports it: measured from the antecedent of some line
      of the input text. */
  predicate FromInput(raw: string, data: Dataset, r: Rule)
    requires |data| > 0
  {
    && r == Evaluate(r.ant, data)
    && exists k :: 0 <= k < |RuleLines(raw)| && ParseLine(RuleLines(raw)[k]) == Success(r.ant)
  }

  /** The parsed antecedents are those of the text's lines. */
  lemma ParsedFromLines(raw: string, data: Dataset, ants: seq<Antecedent>, r: Rule)
    requires |data| > 0
    requires |ants| == |RuleLines(raw)|
    requires forall k :: 0 <= k < |ants| ==> Success(ants[k]) == ParseLine(RuleLines(raw)[k])
    requires Measured(ants, data, r)
    ensures FromInput(raw, data, r)
  {
    var k :| 0 <= k < |ants| && ants[k] == r.ant;
    assert ParseLine(RuleLines(raw)[k]) == Success(r.ant);
  }

  /** One run over the rule text and the labelled table. */
  method ParseAndPruneRuleset(raw: string, data: Dataset, alpha: real,
                              minSupport: real, minConfidence: real)
    returns (r: Result<Report, PipelineError>)
    requires |data| > 0
    // a malformed line stops the run, and only a malformed line does
    ensures (r.Failure? && r.error.Malformed?) <==>
              exists k :: 0 <= k < |RuleLines(raw)| && ParseLine(RuleLines(raw)[k]).Failure?
    ensures r.Failure? && r.error.Malformed? ==>
              exists k :: 0 <= k < |RuleLines(raw)| && ParseLine(RuleLines(raw)[k]) == Failure(r.error.cause)
    // when no line's rule meets both thresholds, nothing is left to rank
    ensures (forall k :: 0 <= k < |RuleLines(raw)| ==>
               ParseLine(RuleLines(raw)[k]).Success? &&
               !MeetsThresholds(Evaluate(ParseLine(RuleLines(raw)[k]).value, data), minSupport, minConfidence))
            ==> r == Failure(NoRulesLeft)
    // when every line parses, the run fails exactly when nothing survives to be ranked
    ensures AllLinesParse(raw) ==>
              (r.Failure? <==> Compressed(LineAntecedents(raw), data, minSupport, minConfidence) == [])
    ensures r.Success? ==>
              && AllLinesParse(raw)
              && r.value.ranked == ScoreRules(Compressed(LineAntecedents(raw), data, minSupport, minConfidence), alpha)
    ensures r.Success? ==>
              var ranked := r.value.ranked;
              // at least one rule, and no more than there were lines
              && 0 < |ranked| <= |RuleLines(raw)|
              // each is an input rule with its measured support and confidence, meeting both thresholds
              && (forall i :: 0 <= i < |ranked| ==>
                    FromInput(raw, data, ranked[i].rule)
                    && MeetsThresholds(ranked[i].rule, minSupport, minConfidence))
              // distinct, none redundant, best score first with exact scores
              && WellRanked(ranked, alpha)
              // the saved text: one line per ranked rule, in rank order
              && r.value.text == RenderFile(RankedAntecedents(ranked))
  {
    var parsed := ParseRules(raw);
    if parsed.Failure? {
      return Failure(Malformed(parsed.error));
    }
    var ants := parsed.value;
    assert ants == LineAntecedents(raw);
    if forall k :: 0 <= k < |RuleLines(raw)| ==>
         ParseLine(RuleLines(raw)[k]).Success? &&
         !MeetsThresholds(Evaluate(ParseLine(RuleLines(raw)[k]).value, data), minSupport, minConfidence)
    {
      forall k | 0 <= k < |ants| ensures !MeetsThresholds(Evaluate(ants[k], data), minSupport, minConfidence) {
        assert ParseLine(RuleLines(raw)[k]).value == ants[k];
      }
    }
    var compressed := CompressRules(ants, data, alpha, minSupport, minConfidence);
    if compressed.Failure? {
      return Failure(compressed.error);
    }
    var ranked := compressed.value;
    forall i | 0 <= i < |ranked| ensures FromInput(raw, data, ranked[i].rule) {
      ParsedFromLines(raw, data, ants, ranked[i].rule);
    }
    return Success(Report(ranked, RenderFile(RankedAntecedents(ranked))));
  }

  /** The saved text reads back, line by line, as the ranked antecedents,
      whenever every literal is writable. */
  lemma SavedTextReadsBack(ranked: seq<ScoredRule>)
    requires forall i :: 0 <= i < |ranked| ==> Writable(ranked[i].rule.ant)
    ensures var ants := RankedAntecedents(ranked);
            var lines := RuleLines(RenderFile(ants));
            && |lines| == |ranked|
            && forall k :: 0 <= k < |ranked| ==> ParseLine(lines[k]) == Success(ranked[k].rule.ant)
  {
    ParseRenderedFile(RankedAntecedents(ranked));
  }
}
