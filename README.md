# Rule compression engine, modelled in Dafny

This project models the rule post-processing engine of `functionalities.py`.
Its input is candidate association rules of the form
`lit AND lit ... => donor_is_old` and a labelled table. The engine:
- reads the rules from text;
- measures each rule's support and confidence on the table, with a three-valued evaluator (True, False or Unknown for a missing cell);
- keeps the rules that clear both thresholds;
- drops overly specific rules;
- greedily generalises rules by intersecting their antecedents;
- ranks the result by a weighted score;
- writes one line per rule.

The modules follow the stages of the program, one file each:

| module | file | what it holds |
|---|---|---|
| `Text` | text.dfy | Python's `strip`, `split` and `join`, string order, and the sorted enumeration of a set of strings |
| `RuleModel` | rules.dfy | literals, antecedents (sets of literals), rows, rules, the `Result` type |
| `Evaluator` | evaluator.dfy | `matches_antecedent`: short-circuit, first-cause evaluation of a literal sequence on a row |
| `Metrics` | metrics.dfy | support and confidence of one antecedent, and the loop measuring a list of them |
| `Pruning` | pruning.dfy | removal of overly specific rules, decided against the whole input |
| `Merging` | merging.dfy | the work-queue generaliser, as imperative methods with loop invariants, and the same rounds as functions on values |
| `Scoring` | scoring.dfy | the score and the descending sort |
| `Parsing` | parsing.dfy | reading rule text, and the line format rules are saved in |
| `Pipeline` | pipeline.dfy | `parse_and_prune_ruleset`: parse, measure, filter, prune, merge, rank, render |

Representation choices:
- A row is a `map<string, bool>`. An absent key is a missing cell. The target column `donor_is_old` is always present.
- A rule carries its antecedent and its measured support and confidence as exact `real`s.
- The evaluator reads an antecedent's literals in sorted order (`Text.Enumerate`). The source's order is that of a `frozenset`. Support and confidence are proved not to depend on that order (`Metrics.CountsIgnoreOrder`). Only the choice between False and Unknown does (`Evaluator.OrderDecidesMissingVersusFalse`).

Points where the code behaves in ways that are easy to misread; the model follows the code in each:
- **Where a merge goes.** An accepted intersection is placed after the candidates the scan skipped, in the consumed partner's place (lines 100, 108 and 124). It does not go to the very front of the queue.
- **Empty intersections.** They are skipped (line 99), never evaluated.
- **Merged rules are never emitted.** An accepted intersection is marked seen when it is created (line 107). The generaliser therefore only ever emits original input records (`Merging.MergeRules`, `EmittedFromInput`).
- **No idempotence.** Running the generaliser a second time on its own output can change it. Take rules `{a,b}`, `{a,c}`, `{a,d}`, `{a,e}`, where `{a}` clears both thresholds. The first run emits `{a,d}` and `{a,e}`. A second run merges those two into `{a}` and emits nothing. `Merging.MergeIsNotIdempotent` proves this with both thresholds at zero.
- **Malformed lines.** A line without exactly one `=>` raises a `ValueError` in the source (line 10). The model returns `Failure(Malformed(...))` naming the first such line.
- **Nothing left to rank.** The source raises a `KeyError` whenever no rule reaches the ranking step, at one of two places, depending on how far the rules get:
  - When no parsed rule clears both thresholds, the filtered table is empty and the failure already comes inside `prune_overly_specific_rules`. The `Overly_Specific` column computed over an empty index is not a boolean mask, so line 78 selects columns instead of rows and its `drop` fails.
  - When the filter leaves rules but pruning or merging leaves none, the merged table has no `Confidence` column and `score_rules` fails at line 130. Pruning alone can empty a non-empty table: two rules with the same antecedent make each other overly specific (`Pruning.DuplicatesDropEachOther`), so the same rule line twice leaves nothing to rank (`Pipeline.DuplicateLinesLeaveNothing`).

  The pipeline returns `Failure(NoRulesLeft)` in all of these cases, and only then.

## Model

| member | source | states |
|---|---|---|
| Text.Strip | functionalities.py:6 | `str.strip()`: the string without its leading and trailing white space; `StripPadded` and `StripIsStripped` state this |
| Text.StripPadded | functionalities.py:6 | stripping white space around a non-blank stripped string gives that string back |
| Text.StripIsStripped | functionalities.py:6 | the result of `strip` has no white space at either end |
| Text.Split | functionalities.py:10-11 | `str.split(sep)`: the pieces between the non-overlapping occurrences of the separator, read left to right; `SplitWhole`, `SplitCutsAt` and `JoinSplit` state this |
| Text.SplitFrom | functionalities.py:10-11 | `Split` carried on from a partly read piece; the result has at least one piece |
| Text.Join | functionalities.py:137 | `sep.join(parts)`: the parts with the separator between neighbours; `JoinSplit` states that splitting undoes it |
| Text.JoinSplit | functionalities.py:6 | joining the pieces of a split with the separator gives the original string |
| Text.SplitWhole | functionalities.py:11 | a string without the separator splits into one piece |
| Text.SplitCutsAt | functionalities.py:10 | a string containing the separator splits into at least two pieces |
| Text.StrLess | functionalities.py:137 | Python's `<` on strings: lexicographic by character, a proper prefix first; `StrLessTotal`, `StrLessTransitive` and `StrLessIrreflexive` state that it is a strict total order |
| Text.StrLessTotal | functionalities.py:137 | the string order used by `sorted` is total |
| Text.StrLessTransitive | functionalities.py:137 | the string order used by `sorted` is transitive |
| Text.StrLessIrreflexive | functionalities.py:137 | the string order used by `sorted` is irreflexive |
| Text.Enumerate | functionalities.py:137 | `sorted(A)`: each member of the set exactly once, in strictly increasing order |
| Evaluator.MatchesAntecedent | functionalities.py:20-35 | the three-valued outcome of reading the literals in order; its meaning is given by `MatchIffAllHold`, `MismatchIffFirstViolated` and `UnknownIffFirstMissing` below |
| Evaluator.MatchIffAllHold | functionalities.py:20-35 | True exactly when every literal's item is present with the asked-for value (plain: true, `NOT x`: false); the empty antecedent is True |
| Evaluator.MismatchIffFirstViolated | functionalities.py:20-35 | False exactly when some literal is present and violated and every literal before it holds |
| Evaluator.UnknownIffFirstMissing | functionalities.py:20-35 | Unknown exactly when some literal's item is missing and every literal before it holds |
| Evaluator.DefinedGivesConjunction | functionalities.py:20-35 | when every referenced item is present, the result is the conjunction of the literals |
| Evaluator.MatchIgnoresOrder | functionalities.py:21 | whether a row answers True does not depend on the order the literals are read in |
| Evaluator.DefinedIgnoresOrder | functionalities.py:21 | with every item present, the whole outcome does not depend on the literal order |
| Evaluator.OrderDecidesMissingVersusFalse | functionalities.py:21-32 | with one item false and another missing, the literal order decides between False and Unknown |
| Metrics.MatchCount | functionalities.py:41-48 | the rows answered True are at most all rows |
| Metrics.MatchTargetCount | functionalities.py:44-47 | the True rows with a true target are at most the True rows |
| Metrics.SupportConfidence | functionalities.py:38-49 | support and confidence both lie in [0, 1] |
| Metrics.Evaluate | functionalities.py:38-49 | the measured rule keeps its antecedent, with support and confidence in [0, 1] |
| Metrics.CountsAreRowSets | functionalities.py:41-47 | the two counters equal the numbers of rows satisfying the antecedent, with and without a true target |
| Metrics.SupportConfidenceMeaning | functionalities.py:47-48 | support = #(satisfying rows with a true target) / #rows; confidence = the same count / #(satisfying rows), or 0.0 when there are none |
| Metrics.CountsIgnoreOrder | functionalities.py:41-48 | both counts are the same for any enumeration of the antecedent |
| Metrics.UnmatchedRowOnlyDilutesSupport | functionalities.py:42-48 | a row not answered True (False or Unknown) leaves confidence unchanged and only enlarges support's denominator |
| Metrics.NoMatchGivesZero | functionalities.py:47-48 | when no row satisfies the antecedent, support and confidence are both 0.0 |
| Metrics.ComputeSupportConfidence | functionalities.py:52-63 | one rule per antecedent, in order, each with that antecedent's measured support and confidence |
| Pruning.OverlySpecific | functionalities.py:67-75 | rule i is overly specific when some other position holds a subset antecedent with at least 98 % of its confidence; `PruneCharacterisation` states that exactly these positions are dropped |
| Pruning.SurvivorsUpTo | functionalities.py:77-78 | the rules among the first n that are not overly specific, in order, at most n of them; `PruneCharacterisation` states what it keeps |
| Pruning.Prune | functionalities.py:66-78 | the pruned list is no longer than the input |
| Pruning.PruneCharacterisation | functionalities.py:66-78 | the pruned list is the input at increasing positions, and position i is kept exactly when no other rule has a subset antecedent with at least 98 % of its confidence |
| Pruning.DuplicatesDropEachOther | functionalities.py:70-74 | two copies of the same rule make each other overly specific |
| Pruning.PrunedRulesAreIncomparable | functionalities.py:66-78 | survivors have pairwise distinct antecedents, and none has a subset antecedent with at least 98 % of another's confidence |
| Pruning.SurvivorsAreInputRules | functionalities.py:78 | every survivor is an input rule |
| Pruning.SurvivorsDoNotSubsume | functionalities.py:72-73 | of two survivors with different antecedents, a subset one has under 98 % of the other's confidence |
| Pruning.PruneKeepsAMostGeneralRule | functionalities.py:66-78 | with distinct antecedents, a non-empty input keeps at least one rule |
| Merging.Blocked | functionalities.py:98-106 | a pair cannot be merged when its intersection is empty, already seen, or misses a threshold; `BlockedSymmetric`, `ScanForPartner` and `EmittedPairsBlocked` use it |
| Merging.BlockedSymmetric | functionalities.py:98-106 | whether a pair can be merged does not depend on which rule is the head |
| Merging.ScanForPartner | functionalities.py:96-116 | the inner scan: every candidate passed over is blocked (empty or seen intersection, or thresholds missed); on a merge the partner is the first unblocked candidate, and the intersection is non-empty, unseen, a subset of both, measured, and clears both thresholds |
| Merging.AcceptMerge | functionalities.py:106-124 | a merge marks the intersection seen, logs it, and puts its measured rule in the partner's place, keeping the round invariant |
| Merging.EmitHead | functionalities.py:118-122 | without a merge the head is appended unless its antecedent was seen, and is seen afterwards; the round invariant is kept |
| Merging.Round | functionalities.py:92-124 | one round on values: the queue shrinks by exactly one, and the results and `seen` only grow |
| Merging.Run | functionalities.py:87-124 | the rounds from a given state on, stopping at an empty queue or once the counter passes the cap: the results only grow |
| Merging.MergesWithFirstUnblocked | functionalities.py:96-116 | the head merges with the first candidate it is not blocked with: the skipped candidates, then the measured intersection, then the unscanned rest form the new queue, and the intersection is seen |
| Merging.EmitsWhenAllBlocked | functionalities.py:96-124 | a head blocked with every candidate leaves the queue, is emitted unless its antecedent was seen, and is seen afterwards |
| Merging.RunOneRound | functionalities.py:87-90 | with work left and the counter not past the cap, the run continues with one more round |
| Merging.ZeroThresholdsBlock | functionalities.py:99-106 | with both thresholds at zero a merge is blocked exactly when the intersection is empty or seen |
| Merging.FirstRunExample | functionalities.py:81-126 | with zero thresholds, antecedents shaped like `{a,b} {a,c} {a,d} {a,e}` yield exactly the last two rules |
| Merging.SecondRunExample | functionalities.py:81-126 | with zero thresholds, two rules whose antecedents meet in a non-empty set yield nothing |
| Merging.MergeRun | functionalities.py:81-126 | the reference run from the empty state; `MergeRules` ensures its result is exactly this, and `MergeIsNotIdempotent` evaluates it on an example |
| Merging.MergeIsNotIdempotent | functionalities.py:81-126 | merging is not idempotent: `{a,b} {a,c} {a,d} {a,e}` gives `{a,d} {a,e}`, and merging that gives nothing |
| Merging.MergeRound | functionalities.py:92-124 | one outer iteration is exactly the reference round `Round`: merge with the first unblocked candidate if there is one, else emit the head unless seen; the queue shrinks by exactly one; `seen`, the results and the log only grow; with a merge, head and partner leave and the intersection takes the partner's place |
| Merging.MergePreserves | functionalities.py:106-124 | an accepted merge keeps the round invariant |
| Merging.EmitPreserves | functionalities.py:118-124 | emitting or dropping the head keeps the round invariant |
| Merging.EmittedPairsBlocked | functionalities.py:96-122 | no two emitted rules can still be merged |
| Merging.MergeRules | functionalities.py:81-126 | only input records are emitted, unchanged, with distinct antecedents, none equal to an accepted intersection; every accepted intersection was non-empty, cleared both thresholds and grew out of earlier rules; `seen` is the accepted intersections plus the emitted antecedents; no two emitted rules can be merged; min(|input|, max_iterations + 1) rounds run, none when the cap is negative, and at most one rule is emitted per round; the result is exactly the reference run `MergeRun` |
| Scoring.Score | functionalities.py:130 | alpha times confidence plus (1 - alpha) times support; `ScoreBetween`, `ScoreInUnitInterval` and `ScoreMonotone` state its bounds and monotonicity |
| Scoring.ScoreBetween | functionalities.py:130 | with alpha in [0, 1] the score lies between support and confidence |
| Scoring.ScoreInUnitInterval | functionalities.py:130 | with alpha and both measures in [0, 1], so is the score |
| Scoring.ScoreMonotone | functionalities.py:130 | a rule at least as good on both measures scores at least as high |
| Scoring.Insert | functionalities.py:131 | inserting into a descending ranking gives a descending ranking with exactly one more occurrence of the rule |
| Scoring.SortByScore | functionalities.py:131 | the result is descending by score and a permutation of the input |
| Scoring.ScoreRules | functionalities.py:129-131 | every rule appears with its exact score, scores never increase, and the rules are a permutation of the input |
| Scoring.RankingKeepsAntecedentsDistinct | functionalities.py:131 | ranking rules with distinct antecedents keeps them distinct |
| Parsing.NonBlankLines | functionalities.py:6 | the kept lines are at most the input lines, and each is non-empty and stripped |
| Parsing.RuleLines | functionalities.py:6 | every rule line is non-blank and stripped |
| Parsing.ParseRules | functionalities.py:5-17 | succeeds exactly when every rule line parses, giving one antecedent per line in order; otherwise fails with the first malformed line's error |
| Parsing.ParsedLiteralsAreStripped | functionalities.py:11-12 | every parsed literal is stripped |
| Parsing.ParseLine | functionalities.py:10-12 | one line: malformed unless it has exactly one `=>`, else the stripped pieces of its left side split at `AND`; `MissingArrowIsMalformed`, `OneArrowIsWellFormed`, `ExtraArrowIsMalformed` and `ParseJoinedLiterals` state this |
| Parsing.MissingArrowIsMalformed | functionalities.py:10 | a line without `=>` is malformed |
| Parsing.OneArrowIsWellFormed | functionalities.py:10 | a line with exactly one `=>` parses |
| Parsing.ExtraArrowIsMalformed | functionalities.py:10 | a line with two `=>` is malformed |
| Parsing.ParseJoinedLiterals | functionalities.py:10-12 | a line joined from the literals of A with ` AND ` and ending in ` => donor_is_old` parses to A |
| Parsing.RenderLine | functionalities.py:137-138 | the saved line of one rule; `ParseRenderedLine` and `RenderedLineShape` state that it reads back and is one stripped line |
| Parsing.ParseRenderedLine | functionalities.py:137-138 | reading back the line saved for a non-empty antecedent whose literals are non-empty, stripped and free of `AND` and `=>` gives that antecedent |
| Parsing.RenderedLineShape | functionalities.py:137-138 | a saved line is non-blank, stripped and without a newline |
| Parsing.RuleLinesOfJoin | functionalities.py:6 | reading the rule lines of newline-terminated, stripped, non-blank lines gives those lines back |
| Parsing.NoRuleLinesInEmptyText | functionalities.py:6 | the empty text has no rule lines |
| Parsing.RenderFile | functionalities.py:134-138 | the saved file, one line per rule in order; `ParseRenderedFile` states that it reads back |
| Parsing.ParseRenderedFile | functionalities.py:134-138 | reading back a saved file gives one line per rule, each parsing to its rule's antecedent |
| Pipeline.KeepQualifying | functionalities.py:148-151 | a rule is kept exactly when it is an input rule clearing both thresholds |
| Pipeline.NothingQualifies | functionalities.py:148-151 | when no rule clears both thresholds, nothing is kept |
| Pipeline.DuplicateLinesLeaveNothing | functionalities.py:145-154 | with both thresholds at zero, the same antecedent on two lines passes the filter twice, pruning drops both copies, and nothing reaches the ranking step |
| Pipeline.SurvivorsQualify | functionalities.py:145-153 | after filtering and pruning, every rule is measured from an input antecedent, clears both thresholds, and none makes another redundant |
| Pipeline.RankedAreInputs | functionalities.py:155 | every ranked rule is one of the rules ranked |
| Pipeline.RankingNoneRedundant | functionalities.py:153-155 | ranking keeps the survivors of pruning free of redundancy |
| Pipeline.RankingInherits | functionalities.py:153-155 | the ranked merge result is measured from input antecedents, clears both thresholds, has distinct and non-redundant antecedents, and is sorted by exact score |
| Pipeline.MergeSurvivors | functionalities.py:154 | the result is exactly the reference run with the default cap of 10000; it has at most its input's rules, all of them input rules, with distinct antecedents |
| Pipeline.Compressed | functionalities.py:146-154 | the reference result of measuring, filtering, pruning and merging; `CompressRules` and `ParseAndPruneRuleset` are tied to it |
| Pipeline.CompressRules | functionalities.py:146-155 | fails only with NoRulesLeft, and exactly when measuring, filtering, pruning and merging (`Compressed`) leave no rule, in particular whenever no antecedent's rule clears both thresholds; on success returns exactly the ranking of those rules: between one and |input| measured, qualifying, distinct, non-redundant rules by exact descending score |
| Pipeline.ParsedFromLines | functionalities.py:145-146 | a rule measured from a parsed antecedent comes from some input line |
| Pipeline.ParseAndPruneRuleset | functionalities.py:141-156 | fails with a malformed-line error exactly when some rule line is malformed, naming one; when every line parses, fails exactly when `Compressed` of the lines' antecedents is empty, in particular when no rule clears both thresholds; on success returns exactly the ranking of those rules: between one and #lines rules, each from an input line with its measures, clearing both thresholds, with distinct, non-redundant antecedents, by exact descending score; the saved text has one line per ranked rule in rank order |
| Pipeline.SavedTextReadsBack | functionalities.py:134-138 | the saved text reads back as one line per ranked rule, each parsing to its antecedent |

## Left out

- `main.py`: argument parsing, reading the rules file and the CSV table. Both are I/O.
- Opening and writing the output file (functionalities.py:135-138). The model produces the file's text (`Parsing.RenderFile`) instead.
- The pandas machinery (data frames, `apply`, `iterrows`, column assignment, index handling, `reset_index`). Rules and rows are sequences of records.
- Floating point. Support, confidence, the score and the 0.98 factor are exact `real`s, with no rounding.
- Cell values. NaN, `pd.NA` and an absent column are all one "missing" value. Non-boolean cell values and their truthiness are not modelled.
- The iteration order of a `frozenset`. The evaluator reads literals in sorted order. The counts are proved independent of the order. The False-versus-Unknown outcome is not, and the lemma above exhibits that.
- The order among equal scores. `sort_values` is not stable, so `Scoring.ScoreRules` promises a descending permutation and nothing about ties.
- Pruning.Prune: on an empty input the source raises the `KeyError` of line 78 described above, while `Prune([])` is `[]`. Only `parse_and_prune_ruleset` calls the pruning step, and there an empty input always ends in `Failure(NoRulesLeft)`, because merging `[]` gives `[]`. The pipeline's result is therefore the same.
- The keyword defaults of `parse_and_prune_ruleset` (line 143: `alpha=0.8`, both thresholds `0.0`, the output path). `Pipeline.ParseAndPruneRuleset` takes alpha and both thresholds as parameters, so a caller passes 0.8 and 0.0 explicitly. The output path belongs to the file I/O left out above. Only the cap of `merge_rules` is fixed in the model (`DefaultMaxIterations`), because the pipeline never passes it.
- The empty table. Support divides by the number of rows (line 47), so every measuring member requires a non-empty table.
- Parsing.ParseRenderedLine: the round trip needs a non-empty antecedent whose literals are non-empty, stripped and free of `AND` and `=>`. Other antecedents do not survive a write and a read. Reading back a whole file (`Parsing.ParseRenderedFile`) further needs literals without newlines.
- Pipeline.MergeSurvivors: runs the generaliser with the default cap of 10000 rounds, as `parse_and_prune_ruleset` does. Besides its exact result it repeats only the facts the rest of the pipeline needs. The remaining facts are on `Merging.MergeRules`.
