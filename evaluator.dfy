/** Three-valued evaluation of an antecedent against one row
    (`matches_antecedent`, functionalities.py:20-35). */
module Evaluator {
  import opened RuleModel

  /** The evaluator's answer: True, False, or NA when it meets a missing cell. */
  datatype Outcome = Match | Mismatch | Unknown

  predicate IsNegated(lit: Literal) {
    |lit| >= 4 && lit[..4] == "NOT "
  }

  /** The item a literal reads: the text after `NOT ` for a negated literal. */
  function ItemOf(lit: Literal): string {
    if IsNegated(lit) then lit[4..] else lit
  }

  /** The row has a value for the literal's item. */
  predicate Defined(row: Row, lit: Literal) {
    ItemOf(lit) in row
  }

  /** The literal's item is present and has the value the literal asks for. */
  predicate Holds(row: Row, lit: Literal) {
    Defined(row, lit) && row[ItemOf(lit)] != IsNegated(lit)
  }

  /** The literal's item is present and has the other value. */
  predicate Violated(row: Row, lit: Literal) {
    Defined(row, lit) && row[ItemOf(lit)] == IsNegated(lit)
  }

  /** Every literal before position `i` holds. */
  predicate HoldsBefore(row: Row, lits: seq<Literal>, i: int)
    requires 0 <= i <= |lits|
  {
    forall j :: 0 <= j < i ==> Holds(row, lits[j])
  }

  /** The literals are examined in order; the first missing item gives Unknown
      and the first literal whose value is wrong gives Mismatch, each at once. */
  function MatchesAntecedent(row: Row, lits: seq<Literal>): Outcome {
    if lits == [] then Match
    else
      var item := ItemOf(lits[0]);
      if item !in row then Unknown
      else if row[item] == IsNegated(lits[0]) then Mismatch
      else MatchesAntecedent(row, lits[1..])
  }

  /** True exactly when every literal's item is present with the asked-for
      value; the empty antecedent is True. */
  lemma {:induction false} MatchIffAllHold(row: Row, lits: seq<Literal>)
    ensures MatchesAntecedent(row, lits) == Match <==> forall i :: 0 <= i < |lits| ==> Holds(row, lits[i])
  {
    if lits != [] {
      MatchIffAllHold(row, lits[1..]);
      assert forall i :: 1 <= i < |lits| ==> lits[i] == lits[1..][i - 1];
    }
  }

  /** False exactly when some literal is present and violated and every
      literal before it holds: the first cause decides. */
  lemma {:induction false} MismatchIffFirstViolated(row: Row, lits: seq<Literal>)
    ensures MatchesAntecedent(row, lits) == Mismatch <==>
            exists i :: 0 <= i < |lits| && Violated(row, lits[i]) && HoldsBefore(row, lits, i)
  {
    if lits != [] {
      MismatchIffFirstViolated(row, lits[1..]);
      var tail := lits[1..];
      if !Defined(row, lits[0]) {
        forall i | 0 <= i < |lits| && Violated(row, lits[i]) ensures !HoldsBefore(row, lits, i) {
          assert i != 0;
          assert !Holds(row, lits[0]);
        }
      } else if Violated(row, lits[0]) {
        assert HoldsBefore(row, lits, 0);
      } else {
        assert Holds(row, lits[0]);
        if MatchesAntecedent(row, lits) == Mismatch {
          var k :| 0 <= k < |tail| && Violated(row, tail[k]) && HoldsBefore(row, tail, k);
          assert HoldsBefore(row, lits, k + 1);
          assert Violated(row, lits[k + 1]);
        }
        forall i | 0 <= i < |lits| && Violated(row, lits[i]) && HoldsBefore(row, lits, i)
          ensures MatchesAntecedent(row, lits) == Mismatch
        {
          assert i != 0;
          assert HoldsBefore(row, tail, i - 1);
          assert Violated(row, tail[i - 1]);
        }
      }
    }
  }

  /** Unknown exactly when some literal's item is missing and every literal
      before it holds. */
  lemma {:induction false} UnknownIffFirstMissing(row: Row, lits: seq<Literal>)
    ensures MatchesAntecedent(row, lits) == Unknown <==>
            exists i :: 0 <= i < |lits| && !Defined(row, lits[i]) && HoldsBefore(row, lits, i)
  {
    if lits != [] {
      UnknownIffFirstMissing(row, lits[1..]);
      var tail := lits[1..];
      if !Defined(row, lits[0]) {
        assert HoldsBefore(row, lits, 0);
      } else if Violated(row, lits[0]) {
        forall i | 0 <= i < |lits| && !Defined(row, lits[i]) ensures !HoldsBefore(row, lits, i) {
          assert i != 0;
          assert !Holds(row, lits[0]);
        }
      } else {
        assert Holds(row, lits[0]);
        if MatchesAntecedent(row, lits) == Unknown {
          var k :| 0 <= k < |tail| && !Defined(row, tail[k]) && HoldsBefore(row, tail, k);
          assert HoldsBefore(row, lits, k + 1);
          assert !Defined(row, lits[k + 1]);
        }
        forall i | 0 <= i < |lits| && !Defined(row, lits[i]) && HoldsBefore(row, lits, i)
          ensures MatchesAntecedent(row, lits) == Unknown
        {
          assert i != 0;
          assert HoldsBefore(row, tail, i - 1);
          assert !Defined(row, tail[i - 1]);
        }
      }
    }
  }

  /** With every referenced item present the answer is never Unknown and is
      the plain conjunction of the literals. */
  lemma DefinedGivesConjunction(row: Row, lits: seq<Literal>)
    requires forall i :: 0 <= i < |lits| ==> Defined(row, lits[i])
    ensures MatchesAntecedent(row, lits) ==
            if forall i :: 0 <= i < |lits| ==> Holds(row, lits[i]) then Match else Mismatch
  {
    MatchIffAllHold(row, lits);
    UnknownIffFirstMissing(row, lits);
  }

  /** Whether the answer is True does not depend on the order in which the
      literals are examined. */
  lemma MatchIgnoresOrder(row: Row, s1: seq<Literal>, s2: seq<Literal>)
    requires forall x :: x in s1 <==> x in s2
    ensures MatchesAntecedent(row, s1) == Match <==> MatchesAntecedent(row, s2) == Match
  {
    MatchIffAllHold(row, s1);
    MatchIffAllHold(row, s2);
    if MatchesAntecedent(row, s1) == Match {
      forall i | 0 <= i < |s2| ensures Holds(row, s2[i]) {
        assert s2[i] in s1;
        var j :| 0 <= j < |s1| && s1[j] == s2[i];
      }
    }
    if MatchesAntecedent(row, s2) == Match {
      forall i | 0 <= i < |s1| ensures Holds(row, s1[i]) {
        assert s1[i] in s2;
        var j :| 0 <= j < |s2| && s2[j] == s1[i];
      }
    }
  }

  /** When every referenced item is present, any two enumerations of the same
      antecedent give the same answer. */
  lemma DefinedIgnoresOrder(row: Row, s1: seq<Literal>, s2: seq<Literal>)
    requires forall x :: x in s1 <==> x in s2
    requires forall i :: 0 <= i < |s1| ==> Defined(row, s1[i])
    ensures MatchesAntecedent(row, s1) == MatchesAntecedent(row, s2)
  {
    forall i | 0 <= i < |s2| ensures Defined(row, s2[i]) {
      assert s2[i] in s1;
      var j :| 0 <= j < |s1| && s1[j] == s2[i];
    }
    DefinedGivesConjunction(row, s1);
    DefinedGivesConjunction(row, s2);
    MatchIgnoresOrder(row, s1, s2);
  }

  /** A missing item and a false one in the same antecedent: the one examined
      first decides between Unknown and False. */
  lemma OrderDecidesMissingVersusFalse()
    ensures var row: Row := map[TargetColumn := true, "a" := false];
            MatchesAntecedent(row, ["a", "b"]) == Mismatch && MatchesAntecedent(row, ["b", "a"]) == Unknown
  {
    var row: Row := map[TargetColumn := true, "a" := false];
    assert !IsNegated("a") && !IsNegated("b");
    assert ItemOf("b") !in row;
  }
}
