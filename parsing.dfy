/** Reading rule text (`parse_rules`, functionalities.py:5-17) and the line
    format rules are saved in (`save_rules_to_file`, functionalities.py:134-138). */
module Parsing {
  import opened Text
  import opened RuleModel

  /** Separates a rule's antecedent from its consequent. */
  const Arrow: string := "=>"

  /** Separates the literals of an antecedent. */
  const AndWord: string := "AND"

  const Newline: string := "\n"

  /** The unpacking `lhs, _ = rule.split("=>")` fails on this line. */
  datatype ParseError = MalformedRule(line: string)

  // ---------------------------------------------------------------------
  // Reading
  // ---------------------------------------------------------------------

  /** Each line stripped, blank lines dropped, order kept. */
  function NonBlankLines(lines: seq<string>): (kept: seq<string>)
    ensures |kept| <= |lines|
    ensures forall k :: 0 <= k < |kept| ==> kept[k] != [] && Stripped(kept[k])
  {
    if lines == [] then []
    else
      StripIsStripped(lines[0]);
      (if Strip(lines[0]) == [] then [] else [Strip(lines[0])]) + NonBlankLines(lines[1..])
  }

  /** The rule lines of a text: `rules_raw.strip().split("\n")`, stripped, non-blank. */
  function RuleLines(raw: string): (lines: seq<string>)
    ensures forall k :: 0 <= k < |lines| ==> lines[k] != [] && Stripped(lines[k])
  {
    NonBlankLines(Split(Strip(raw), Newline))
  }

  /** One rule line: the text before the only `=>`, stripped and cut at every
      `AND`, each piece stripped; the pieces form a set. */
  function ParseLine(line: string): Result<Antecedent, ParseError> {
    var sides := Split(line, Arrow);
    if |sides| != 2 then Failure(MalformedRule(line))
    else Success(set item | item in Split(Strip(sides[0]), AndWord) :: Strip(item))
  }

  /** Every line of the text in turn; the first malformed line ends parsing
      with an error. */
  method ParseRules(raw: string) returns (r: Result<seq<Antecedent>, ParseError>)
    ensures r.Success? <==>
              forall k :: 0 <= k < |RuleLines(raw)| ==> ParseLine(RuleLines(raw)[k]).Success?
    ensures r.Success? ==>
              && |r.value| == |RuleLines(raw)|
              && forall k :: 0 <= k < |r.value| ==> Success(r.value[k]) == ParseLine(RuleLines(raw)[k])
    ensures r.Failure? ==>
              exists k :: && 0 <= k < |RuleLines(raw)|
                          && ParseLine(RuleLines(raw)[k]) == Failure(r.error)
                          && forall j :: 0 <= j < k ==> ParseLine(RuleLines(raw)[j]).Success?
  {
    var lines := RuleLines(raw);
    var parsed: seq<Antecedent> := [];
    for k := 0 to |lines|
      invariant |parsed| == k
      invariant forall j :: 0 <= j < k ==> Success(parsed[j]) == ParseLine(lines[j])
    {
      var p := ParseLine(lines[k]);
      if p.Failure? {
        assert 0 <= k < |lines| && ParseLine(lines[k]) == Failure(p.error);
        return Failure(p.error);
      }
      parsed := parsed + [p.value];
    }
    return Success(parsed);
  }

  /** Every literal read from a line is stripped. */
  lemma ParsedLiteralsAreStripped(line: string)
    ensures ParseLine(line).Success? ==> forall lit :: lit in ParseLine(line).value ==> Stripped(lit)
  {
    forall item | true ensures Stripped(Strip(item)) {
      StripIsStripped(item);
    }
  }

  /** A line without `=>` is malformed. */
  lemma MissingArrowIsMalformed(line: string)
    requires !Contains(line, Arrow)
    ensures ParseLine(line) == Failure(MalformedRule(line))
  {
    SplitWhole(line, Arrow, []);
  }

  /** The first `=>` in `lhs + "=>" + rest` is the one after `lhs` when `lhs` has none. */
  lemma FirstArrowAfter(lhs: string, rest: string)
    requires !Contains(lhs, Arrow)
    ensures Split(lhs + Arrow + rest, Arrow) == [lhs] + SplitFrom(rest, Arrow, [])
  {
    var t := lhs + Arrow + rest;
    forall i | 0 <= i < |lhs| ensures !OccursAt(t, Arrow, i) {
      if i + 2 <= |lhs| {
        assert t[i..i + 2] == lhs[i..i + 2];
        assert !OccursAt(lhs, Arrow, i);
      } else {
        assert t[i..i + 2][1] == t[|lhs|] == '=';
      }
    }
    SplitCutsAfter(lhs, rest, Arrow, []);
    assert [] + lhs == lhs;
  }

  /** A line with exactly one `=>` is split into the text before and after it. */
  lemma OneArrowIsWellFormed(lhs: string, rhs: string)
    requires !Contains(lhs, Arrow) && !Contains(rhs, Arrow)
    ensures Split(lhs + Arrow + rhs, Arrow) == [lhs, rhs]
    ensures ParseLine(lhs + Arrow + rhs).Success?
  {
    FirstArrowAfter(lhs, rhs);
    SplitWhole(rhs, Arrow, []);
    assert [] + rhs == rhs;
  }

  /** A line with a second `=>` is malformed. */
  lemma ExtraArrowIsMalformed(lhs: string, mid: string, rhs: string)
    requires !Contains(lhs, Arrow)
    ensures ParseLine(lhs + Arrow + mid + Arrow + rhs) == Failure(MalformedRule(lhs + Arrow + mid + Arrow + rhs))
  {
    var rest := mid + Arrow + rhs;
    assert lhs + Arrow + mid + Arrow + rhs == lhs + Arrow + rest;
    FirstArrowAfter(lhs, rest);
    assert rest[|mid|..|mid| + 2] == Arrow;
    SplitCutsAt(rest, Arrow, [], |mid|);
  }

  // ---------------------------------------------------------------------
  // Writing
  // ---------------------------------------------------------------------

  /** `" AND ".join(sorted(A)) + " => donor_is_old"`. */
  function RenderLine(A: Antecedent): string {
    Join(" AND ", Enumerate(A)) + " => " + TargetColumn
  }

  /** The file `save_rules_to_file` writes: each rule's line followed by a newline. */
  function RenderFile(ants: seq<Antecedent>): string {
    if ants == [] then [] else RenderLine(ants[0]) + Newline + RenderFile(ants[1..])
  }

  /** A literal that survives being written into a line and read back unchanged. */
  predicate WellFormedLiteral(lit: Literal) {
    && lit != []
    && Stripped(lit)
    && !Contains(lit, AndWord)
    && !Contains(lit, Arrow)
  }

  /** An antecedent whose saved line reads back as the antecedent. */
  predicate LineRoundTrips(A: Antecedent) {
    A != {} && forall lit :: lit in A ==> WellFormedLiteral(lit)
  }

  /** An antecedent that can be written into a file and read back: its line
      must also not break into several lines. */
  predicate Writable(A: Antecedent) {
    LineRoundTrips(A) && forall lit :: lit in A ==> '\n' !in lit
  }

  /** The pieces splitting a rendered antecedent on `AND` gives: each literal
      with the spaces around it. */
  function PaddedPieces(w: string, lits: seq<Literal>): (pieces: seq<string>)
    requires |lits| >= 1
    ensures |pieces| == |lits|
    decreases |lits|
  {
    if |lits| == 1 then [w + lits[0]]
    else [w + lits[0] + " "] + PaddedPieces(" ", lits[1..])
  }

  lemma {:induction false} SplitRendered(w: string, lits: seq<Literal>)
    requires AllSpace(w) && |lits| >= 1
    requires forall k :: 0 <= k < |lits| ==> !Contains(lits[k], AndWord)
    ensures SplitFrom(Join(" AND ", lits), AndWord, w) == PaddedPieces(w, lits)
    decreases |lits|
  {
    if |lits| == 1 {
      SplitWhole(lits[0], AndWord, w);
    } else {
      var rest := Join(" AND ", lits[1..]);
      var a := lits[0] + " ";
      var s := " " + rest;
      assert Join(" AND ", lits) == a + AndWord + s;
      NoOccurrenceAcrossSpace(lits[0], AndWord + s, AndWord);
      assert lits[0] + " " + (AndWord + s) == a + AndWord + s;
      SplitCutsAfter(a, s, AndWord, w);
      forall i | 0 <= i < 1 ensures !OccursAt(" " + rest, AndWord, i) {
        if i + 3 <= |" " + rest| {
          assert (" " + rest)[i..i + 3][0] == ' ';
        }
      }
      SplitSkips(" ", rest, AndWord, []);
      assert [] + " " == " ";
      SplitRendered(" ", lits[1..]);
      assert SplitFrom(s, AndWord, []) == PaddedPieces(" ", lits[1..]);
      assert w + a == w + lits[0] + " ";
    }
  }

  lemma {:induction false} PaddedPiecesStrip(w: string, lits: seq<Literal>)
    requires AllSpace(w) && |lits| >= 1
    requires forall k :: 0 <= k < |lits| ==> lits[k] != [] && Stripped(lits[k])
    ensures forall k :: 0 <= k < |lits| ==> Strip(PaddedPieces(w, lits)[k]) == lits[k]
    decreases |lits|
  {
    if |lits| == 1 {
      StripPadded(w, lits[0], "");
      assert w + lits[0] + "" == w + lits[0];
    } else {
      var pieces := PaddedPieces(w, lits);
      var tail := PaddedPieces(" ", lits[1..]);
      assert pieces == [w + lits[0] + " "] + tail;
      assert AllSpace(" ") by {
        assert IsSpace(' ');
      }
      StripPadded(w, lits[0], " ");
      PaddedPiecesStrip(" ", lits[1..]);
      forall k | 0 <= k < |lits| ensures Strip(pieces[k]) == lits[k] {
        if k > 0 {
          assert pieces[k] == tail[k - 1];
        }
      }
    }
  }

  /** Facts about the rendered consequent ` => donor_is_old`. */
  lemma ConsequentText()
    ensures " => " + TargetColumn == " " + Arrow + (" " + TargetColumn)
    ensures Arrow[0] !in " " + TargetColumn && Arrow[0] !in " "
    ensures '\n' !in " => " + TargetColumn
    ensures var t := " => " + TargetColumn; t != [] && !IsSpace(t[|t| - 1])
  {
  }

  /** The rendered separator is the word `AND` padded with one space each side. */
  lemma AndSeparator()
    ensures " " + AndWord + " " == " AND "
  {
  }

  /** Joining literals free of `pat` with ` AND ` creates no occurrence of it. */
  lemma RenderedAvoids(lits: seq<Literal>, pat: string)
    requires pat != [] && ' ' !in pat && pat[0] !in AndWord
    requires forall k :: 0 <= k < |lits| ==> !Contains(lits[k], pat)
    ensures !Contains(Join(" AND ", lits), pat)
  {
    AndSeparator();
    AbsentFirstChar(AndWord, pat);
    JoinAvoids(AndWord, lits, pat);
  }

  /** A joined antecedent without `=>` is cut right before the rendered arrow. */
  lemma RenderedSides(J: string)
    requires !Contains(J, Arrow)
    ensures Split(J + " => " + TargetColumn, Arrow) == [J + " ", " " + TargetColumn]
  {
    var rhs := " " + TargetColumn;
    ConsequentText();
    AbsentFirstChar(rhs, Arrow);
    AbsentFirstChar(" ", Arrow);
    NotContainsConcat(J, " ", Arrow);
    assert J + " => " + TargetColumn == (J + " ") + Arrow + rhs;
    OneArrowIsWellFormed(J + " ", rhs);
  }

  /** Stripping the pieces of a split gives back exactly the literals. */
  lemma StrippedPiecesAreLiterals(pieces: seq<string>, lits: seq<Literal>, A: Antecedent)
    requires |pieces| == |lits|
    requires forall k :: 0 <= k < |lits| ==> Strip(pieces[k]) == lits[k]
    requires forall x :: x in lits <==> x in A
    ensures (set item | item in pieces :: Strip(item)) == A
  {
    var B := set item | item in pieces :: Strip(item);
    forall x ensures x in B <==> x in A {
      if x in A {
        assert x in lits;
        var k :| 0 <= k < |lits| && lits[k] == x;
        assert pieces[k] in pieces;
      }
      if x in B {
        var item :| item in pieces && Strip(item) == x;
        var k :| 0 <= k < |pieces| && pieces[k] == item;
        assert lits[k] in lits;
      }
    }
  }

  /** The left-hand side of a rendered line, once stripped, is the joined literals. */
  lemma RenderedLeftSide(lits: seq<Literal>)
    requires |lits| >= 1
    requires forall k :: 0 <= k < |lits| ==> WellFormedLiteral(lits[k])
    ensures var sides := Split(Join(" AND ", lits) + " => " + TargetColumn, Arrow);
            |sides| == 2 && Strip(sides[0]) == Join(" AND ", lits)
  {
    var J := Join(" AND ", lits);
    forall k | 0 <= k < |lits| ensures !Contains(lits[k], Arrow) && lits[k] != [] {
      assert WellFormedLiteral(lits[k]);
    }
    RenderedAvoids(lits, Arrow);
    RenderedSides(J);
    JoinEnds(" AND ", lits);
    StripPadded("", J, " ");
    assert "" + J + " " == J + " ";
  }

  /** Cutting joined literals at `AND` and stripping the pieces gives the literals back. */
  lemma RenderedPieces(lits: seq<Literal>, A: Antecedent)
    requires |lits| >= 1
    requires forall x :: x in lits <==> x in A
    requires forall k :: 0 <= k < |lits| ==> WellFormedLiteral(lits[k])
    ensures (set item | item in Split(Join(" AND ", lits), AndWord) :: Strip(item)) == A
  {
    forall k | 0 <= k < |lits| ensures !Contains(lits[k], AndWord) && lits[k] != [] && Stripped(lits[k]) {
      assert WellFormedLiteral(lits[k]);
    }
    SplitRendered("", lits);
    PaddedPiecesStrip("", lits);
    StrippedPiecesAreLiterals(PaddedPieces("", lits), lits, A);
  }

  /** Reading back the line rendered from any listing of an antecedent gives the antecedent. */
  lemma ParseJoinedLiterals(lits: seq<Literal>, A: Antecedent)
    requires |lits| >= 1
    requires forall x :: x in lits <==> x in A
    requires forall k :: 0 <= k < |lits| ==> WellFormedLiteral(lits[k])
    ensures ParseLine(Join(" AND ", lits) + " => " + TargetColumn) == Success(A)
  {
    RenderedLeftSide(lits);
    RenderedPieces(lits, A);
  }

  /** Reading back a rendered line gives the antecedent it was rendered from. */
  lemma ParseRenderedLine(A: Antecedent)
    requires LineRoundTrips(A)
    ensures ParseLine(RenderLine(A)) == Success(A)
  {
    var lits := Enumerate(A);
    var x :| x in A;
    assert x in lits;
    forall k | 0 <= k < |lits| ensures WellFormedLiteral(lits[k]) {
      assert lits[k] in A;
    }
    ParseJoinedLiterals(lits, A);
  }

  /** Literals without a newline character contain no newline text. */
  lemma LiteralsAvoidNewline(lits: seq<Literal>)
    requires forall k :: 0 <= k < |lits| ==> '\n' !in lits[k]
    ensures forall k :: 0 <= k < |lits| ==> !Contains(lits[k], Newline)
  {
    forall k | 0 <= k < |lits| ensures !Contains(lits[k], Newline) {
      AbsentFirstChar(lits[k], Newline);
    }
  }

  /** Joined literals without newlines contain no newline. */
  lemma JoinedHasNoNewline(lits: seq<Literal>)
    requires forall k :: 0 <= k < |lits| ==> '\n' !in lits[k]
    ensures '\n' !in Join(" AND ", lits)
  {
    LiteralsAvoidNewline(lits);
    RenderedAvoids(lits, Newline);
    AbsentChar(Join(" AND ", lits), '\n');
  }

  /** Joined well-formed literals start with a character that is not white space. */
  lemma JoinedStartsWell(lits: seq<Literal>)
    requires |lits| >= 1
    requires forall k :: 0 <= k < |lits| ==> WellFormedLiteral(lits[k])
    ensures var J := Join(" AND ", lits); J != [] && !IsSpace(J[0])
  {
    JoinEnds(" AND ", lits);
    assert WellFormedLiteral(lits[0]);
  }

  /** The line rendered from well-formed literals without newlines is
      stripped, non-empty and has no newline. */
  lemma JoinedLineShape(lits: seq<Literal>)
    requires |lits| >= 1
    requires forall k :: 0 <= k < |lits| ==> WellFormedLiteral(lits[k]) && '\n' !in lits[k]
    ensures var line := Join(" AND ", lits) + " => " + TargetColumn;
            line != [] && Stripped(line) && '\n' !in line
  {
    var J := Join(" AND ", lits);
    JoinedStartsWell(lits);
    JoinedHasNoNewline(lits);
    ConsequentText();
    ConcatEnds(J, " => ", TargetColumn);
  }

  /** A rendered line is stripped, non-empty and has no newline. */
  lemma RenderedLineShape(A: Antecedent)
    requires Writable(A)
    ensures var line := RenderLine(A); line != [] && Stripped(line) && '\n' !in line
  {
    var lits := Enumerate(A);
    var x :| x in A;
    assert x in lits;
    forall k | 0 <= k < |lits| ensures WellFormedLiteral(lits[k]) && '\n' !in lits[k] {
      assert lits[k] in A;
    }
    JoinedLineShape(lits);
  }

  /** The rendered lines of a list of antecedents. */
  function RenderLines(ants: seq<Antecedent>): (lines: seq<string>)
    ensures |lines| == |ants|
    ensures forall k :: 0 <= k < |ants| ==> lines[k] == RenderLine(ants[k])
  {
    seq(|ants|, k requires 0 <= k < |ants| => RenderLine(ants[k]))
  }

  lemma {:induction false} RenderFileIsJoin(ants: seq<Antecedent>)
    requires ants != []
    ensures RenderFile(ants) == Join(Newline, RenderLines(ants)) + Newline
    decreases |ants|
  {
    if |ants| > 1 {
      RenderFileIsJoin(ants[1..]);
      assert RenderLines(ants)[1..] == RenderLines(ants[1..]);
    } else {
      assert RenderFile(ants[1..]) == [];
    }
  }

  lemma {:induction false} NonBlankKeepsStripped(lines: seq<string>)
    requires forall k :: 0 <= k < |lines| ==> lines[k] != [] && Stripped(lines[k])
    ensures NonBlankLines(lines) == lines
    decreases |lines|
  {
    if lines != [] {
      StripPadded("", lines[0], "");
      assert "" + lines[0] + "" == lines[0];
      NonBlankKeepsStripped(lines[1..]);
      assert lines == [lines[0]] + lines[1..];
    }
  }

  /** Stripping a stripped text followed by a newline removes just the newline. */
  lemma StripNewlineTerminated(body: string)
    requires body != [] && Stripped(body)
    ensures Strip(body + Newline) == body
  {
    StripPadded("", body, Newline);
    assert "" + body + Newline == body + Newline;
  }

  lemma JoinedLinesStripped(lines: seq<string>)
    requires |lines| >= 1
    requires forall k :: 0 <= k < |lines| ==> lines[k] != [] && Stripped(lines[k])
    ensures Join(Newline, lines) != [] && Stripped(Join(Newline, lines))
  {
    JoinEnds(Newline, lines);
  }

  lemma SplitJoinedLines(lines: seq<string>)
    requires |lines| >= 1
    requires forall k :: 0 <= k < |lines| ==> '\n' !in lines[k]
    ensures Split(Join(Newline, lines), Newline) == lines
  {
    assert Newline == ['\n'];
    SplitJoinedOnChar(lines, '\n', []);
  }

  /** The rule lines of newline-terminated lines are those lines, when each
      is non-empty, stripped and free of newlines. */
  lemma RuleLinesOfJoin(lines: seq<string>)
    requires |lines| >= 1
    requires forall k :: 0 <= k < |lines| ==> lines[k] != [] && Stripped(lines[k]) && '\n' !in lines[k]
    ensures RuleLines(Join(Newline, lines) + Newline) == lines
  {
    JoinedLinesStripped(lines);
    StripNewlineTerminated(Join(Newline, lines));
    SplitJoinedLines(lines);
    NonBlankKeepsStripped(lines);
  }

  /** Every rendered line is stripped, non-empty, free of newlines, and reads
      back as its antecedent. */
  lemma RenderedLinesRead(ants: seq<Antecedent>)
    requires forall k :: 0 <= k < |ants| ==> Writable(ants[k])
    ensures var lines := RenderLines(ants);
            forall k :: 0 <= k < |ants| ==>
              lines[k] != [] && Stripped(lines[k]) && '\n' !in lines[k] && ParseLine(lines[k]) == Success(ants[k])
  {
    forall k | 0 <= k < |ants|
      ensures var line := RenderLine(ants[k]);
              line != [] && Stripped(line) && '\n' !in line && ParseLine(line) == Success(ants[k])
    {
      RenderedLineShape(ants[k]);
      ParseRenderedLine(ants[k]);
    }
  }

  /** An empty text has no rule lines. */
  lemma NoRuleLinesInEmptyText()
    ensures RuleLines([]) == []
  {
    var empty: string := [];
    assert Strip(empty) == empty;
    assert |empty| < |Newline| && empty + empty == empty;
    assert Split(empty, Newline) == [empty];
    assert NonBlankLines([empty]) == [];
  }

  /** Reading a written file finds one line per rule, in order, and each line
      reads back as the antecedent it was written from. */
  lemma ParseRenderedFile(ants: seq<Antecedent>)
    requires forall k :: 0 <= k < |ants| ==> Writable(ants[k])
    ensures RuleLines(RenderFile(ants)) == RenderLines(ants)
    ensures forall k :: 0 <= k < |ants| ==> ParseLine(RuleLines(RenderFile(ants))[k]) == Success(ants[k])
  {
    RenderedLinesRead(ants);
    if ants == [] {
      NoRuleLinesInEmptyText();
    } else {
      RenderFileIsJoin(ants);
      RuleLinesOfJoin(RenderLines(ants));
    }
  }
}
