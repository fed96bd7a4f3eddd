/** The values the rule engine works on. */
module RuleModel {

  /** The label every rule predicts; the output file names it after `=>`. */
  const TargetColumn: string := "donor_is_old"

  /** A condition: an item name, or `NOT ` followed by an item name. */
  type Literal = string

  /** The left-hand side of a rule: a set of literals, read as their conjunction. */
  type Antecedent = set<Literal>

  /** One row of the labelled table: the value of each item that is present.
      An absent key is a missing (NaN / NA) cell. The target column is always there. */
  type Row = cells: map<string, bool> | TargetColumn in cells witness map[TargetColumn := false]

  type Dataset = seq<Row>

  function Target(row: Row): bool {
    row[TargetColumn]
  }

  /** A rule `antecedent => donor_is_old` with its measured support and confidence. */
  datatype Rule = Rule(ant: Antecedent, support: real, confidence: real)

  /** The rule is good enough to keep: it clears both thresholds. */
  predicate MeetsThresholds(r: Rule, minSupport: real, minConfidence: real) {
    r.support >= minSupport && r.confidence >= minConfidence
  }

  /** The outcome of an operation that can fail. */
  datatype Result<T, E> = Success(value: T) | Failure(error: E)

  /** The antecedents of a list of rules. */
  function Antecedents(rules: seq<Rule>): set<Antecedent> {
    set r | r in rules :: r.ant
  }
}
