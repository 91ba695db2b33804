/**
  What < and > mean to the finders, said of the characters around them: the tests of the
  linter hold exactly when such characters stand there.
 */
module AngleChars {
  import opened Brackets
  import opened FileText
  import opened LineScan
  import opened FilePairs

  lemma SpacesAre(c: char)
    ensures IsSpace(c) <==> c as int in {9, 10, 11, 12, 13, 32}
  {
  }

  lemma WordCharactersAre(c: char)
    ensures IsWord(c) <==> 48 <= c as int <= 57 || 65 <= c as int <= 90 || c as int == 95 || 97 <= c as int <= 122
  {
  }

  /** The word operator stands at k, and only white space between it and i. */
  ghost predicate OperatorAt(line: string, k: nat, i: nat) {
    && k + 8 <= i <= |line| && line[k..k + 8] == "operator"
    && (k == 0 || !IsWord(line[k - 1]))
    && forall j | k + 8 <= j < i :: IsSpace(line[j])
  }

  ghost predicate OperatorWord(line: string, i: nat) {
    exists k: nat :: OperatorAt(line, k, i)
  }

  lemma {:induction false} TrimmedExactly(line: string, i: nat, k: nat)
    requires k <= i <= |line|
    ensures TrimRight(line, i) == k <==>
            (forall j | k <= j < i :: IsSpace(line[j])) && (k == 0 || !IsSpace(line[k - 1]))
  {
    if k < i && IsSpace(line[i - 1]) {
      TrimmedExactly(line, i - 1, k);
    }
  }

  lemma OperatorExactly(line: string, i: nat)
    requires i <= |line|
    ensures OperatorBefore(line, i) <==> OperatorWord(line, i)
  {
    var trimmed := TrimRight(line, i);
    TrimmedExactly(line, i, trimmed);
    if OperatorBefore(line, i) {
      assert OperatorAt(line, trimmed - 8, i);
    }
    if k: nat :| OperatorAt(line, k, i) {
      assert line[k + 7] == line[k..k + 8][7] == 'r';
      TrimmedExactly(line, i, k + 8);
    }
  }

  /** The > at i is the end of -> or stands, but for one character, after the word operator. */
  ghost predicate PassedRight(line: string, i: nat)
    requires i < |line|
  {
    i > 0 && (line[i - 1] == '-' || OperatorWord(line, i - 1))
  }

  /** The > at i is the end of ->, the start of >= between spaces, or stands after the word operator. */
  ghost predicate PassedLeft(line: string, i: nat)
    requires i < |line|
  {
    && i > 0
    && (|| line[i - 1] == '-'
        || (i + 2 < |line| && IsSpace(line[i - 1]) && line[i..i + 2] == ">=" && IsSpace(line[i + 2]))
        || OperatorWord(line, i))
  }

  /** The character before i is <. */
  ghost predicate AfterLess(line: string, i: nat)
    requires i < |line|
  {
    i > 0 && line[i - 1] == '<'
  }

  /** The character at i with what stands around it. */
  ghost function TextCell(line: string, i: nat): Cell
    requires i < |line|
  {
    Cell(line[i], AfterLess(line, i), OperatorWord(line, i), PassedRight(line, i), PassedLeft(line, i))
  }

  /** The tests of the finders on a line say just that. */
  lemma TestsExactly(line: string, i: nat)
    requires i < |line|
    ensures AfterAngle(line, i) <==> AfterLess(line, i)
    ensures AfterOperator(line, i) <==> OperatorWord(line, i)
    ensures PlainRight(line, i) <==> PassedRight(line, i)
    ensures PlainLeft(line, i) <==> PassedLeft(line, i)
    ensures CellAt(line, i) == TextCell(line, i)
  {
    OperatorExactly(line, i);
    if i > 0 {
      OperatorExactly(line, i - 1);
    }
    if i + 2 < |line| {
      assert line[i..i + 2] == [line[i], line[i + 1]];
    }
  }

  /** A < that CloseExpression takes as the start of a template list. */
  ghost predicate StartsList(line: string, p: nat)
    requires p < |line|
  {
    && line[p] == '<' && !AfterLess(line, p) && !OperatorWord(line, p)
    && !(p + 1 < |line| && (line[p + 1] == '<' || line[p + 1] == '='))
  }

  lemma StartsListExactly(line: string, p: nat)
    requires p < |line| && line[p] == '<'
    ensures Pushed(line, p) <==> StartsList(line, p)
  {
    TestsExactly(line, p);
  }

  /** The characters of the file, each with what stands around it in its line. */
  ghost function TextCells(lines: seq<string>): seq<Cell> {
    if lines == [] then []
    else seq(|lines[0]|, i requires 0 <= i < |lines[0]| => TextCell(lines[0], i)) + TextCells(lines[1..])
  }

  lemma {:induction false} CellsAreText(lines: seq<string>)
    ensures FlatCells(lines) == TextCells(lines)
  {
    if lines != [] {
      CellsAreText(lines[1..]);
      assert CellLines(lines)[1..] == CellLines(lines[1..]);
      var line := lines[0];
      forall i | 0 <= i < |line|
        ensures LineCells(line)[i] == TextCell(line, i)
      {
        TestsExactly(line, i);
      }
      assert LineCells(line) == seq(|line|, i requires 0 <= i < |line| => TextCell(line, i));
    }
  }

  // ---------- where the finders can start and end

  /** CloseExpression answers only for ( [ { and a < that is no part of << or <=. */
  lemma NoStart(lines: seq<string>, l: nat, p: nat)
    requires IsPlace(lines, l, p)
    requires !(lines[l][p] in "([{<") ||
             (lines[l][p] == '<' && p + 1 < |lines[l]| && (lines[l][p + 1] == '<' || lines[l][p + 1] == '='))
    ensures CloseAt(lines, l, p) == Nowhere
  {
  }

  /** ReverseCloseExpression answers only for ) ] } and >. */
  lemma NoEnd(lines: seq<string>, l: nat, q: nat)
    requires IsPlace(lines, l, q) && !(lines[l][q] in ")]}>")
    ensures ReverseAt(lines, l, q) == Nowhere
  {
  }

  lemma {:induction false} RightStopsAt(cs: seq<Cell>, i: nat, st: seq<char>)
    requires i <= |cs| && ScanRight(cs, i, st).Stopped?
    ensures var c := cs[ScanRight(cs, i, st).pos];
            IsClose(c.ch) || (c.ch == '>' && !c.plainRight)
    decreases |cs| - i
  {
    var step := StepRight(cs[i], st);
    if step.Go? {
      RightStopsAt(cs, i + 1, step.stack);
    }
  }

  lemma {:induction false} LeftStopsAt(cs: seq<Cell>, i: nat, st: seq<char>)
    requires i <= |cs| && ScanLeft(cs, i, st).Stopped?
    ensures var c := cs[ScanLeft(cs, i, st).pos];
            IsOpen(c.ch) || (c.ch == '<' && !c.afterAngle)
    decreases i
  {
    var step := StepLeft(cs[i - 1], st);
    if step.Go? {
      LeftStopsAt(cs, NextLeft(cs, i), step.stack);
    }
  }

  lemma {:induction false} RightFromStopsAt(lines: seq<string>, l: nat, i: nat, st: seq<char>)
    requires l < |lines| && i <= |lines[l]| && RightFrom(CellLines(lines), l, i, st).At?
    ensures var At(k, q) := RightFrom(CellLines(lines), l, i, st);
            IsClose(lines[k][q]) || (lines[k][q] == '>' && !PassedRight(lines[k], q))
    decreases |lines| - l
  {
    var cs := LineCells(lines[l]);
    var r := ScanRight(cs, i, st);
    if r.Stopped? {
      RightStopsAt(cs, i, st);
      TestsExactly(lines[l], r.pos);
    } else {
      RightFromStopsAt(lines, l + 1, 0, r.stack);
    }
  }

  lemma {:induction false} LeftFromStopsAt(lines: seq<string>, l: nat, i: nat, st: seq<char>)
    requires l < |lines| && i <= |lines[l]| && LeftFrom(CellLines(lines), l, i, st).At?
    ensures var At(k, p) := LeftFrom(CellLines(lines), l, i, st);
            IsOpen(lines[k][p]) || (lines[k][p] == '<' && !AfterLess(lines[k], p))
    decreases l
  {
    var cs := LineCells(lines[l]);
    var r := ScanLeft(cs, i, st);
    if r.Stopped? {
      LeftStopsAt(cs, i, st);
      TestsExactly(lines[l], r.pos);
    } else {
      LeftFromStopsAt(lines, l - 1, |lines[l - 1]|, r.stack);
    }
  }

  /** CloseExpression never ends at the > of -> or after the word operator. */
  lemma NeverEndsAtArrow(lines: seq<string>, l: nat, p: nat)
    requires IsPlace(lines, l, p) && CloseAt(lines, l, p).At?
    ensures var At(k, q) := CloseAt(lines, l, p);
            && (IsClose(lines[k][q]) || lines[k][q] == '>')
            && (lines[k][q] == '>' && q > 0 ==> lines[k][q - 1] != '-' && !OperatorWord(lines[k], q - 1))
  {
    RightFromStopsAt(lines, l, p, []);
  }

  /** ReverseCloseExpression never ends at the second < of <<. */
  lemma NeverEndsAtShift(lines: seq<string>, l: nat, q: nat)
    requires IsPlace(lines, l, q) && ReverseAt(lines, l, q).At?
    ensures var At(k, p) := ReverseAt(lines, l, q);
            && (IsOpen(lines[k][p]) || lines[k][p] == '<')
            && (lines[k][p] == '<' && p > 0 ==> lines[k][p - 1] != '<')
  {
    LeftFromStopsAt(lines, l, q + 1, []);
  }

  /** To the left, a > that is passed and the second < of << are left out together with the character before them. */
  lemma {:induction false} PassedOverLeft(line: string, i: nat, st: seq<char>)
    requires i < |line| && ((line[i] == '>' && PassedLeft(line, i)) || (line[i] == '<' && AfterLess(line, i)))
    ensures ScanLeft(LineCells(line), i + 1, st) == ScanLeft(LineCells(line), i - 1, st)
  {
    var cs := LineCells(line);
    assert cs[i] == CellAt(line, i);
    TestsExactly(line, i);
    assert StepLeft(cs[i], st) == Go(st) && NextLeft(cs, i + 1) == i - 1;
  }

  /** An arrow changes no scan: to the right its > is passed, to the left its - as well. */
  lemma {:induction false} ArrowPassed(line: string, i: nat, st: seq<char>)
    requires 0 < i < |line| && line[i - 1] == '-' && line[i] == '>'
    ensures ScanRight(LineCells(line), i - 1, st) == ScanRight(LineCells(line), i + 1, st)
    ensures ScanLeft(LineCells(line), i + 1, st) == ScanLeft(LineCells(line), i - 1, st)
  {
    var cs := LineCells(line);
    assert cs[i] == CellAt(line, i) && cs[i - 1] == CellAt(line, i - 1);
    TestsExactly(line, i);
    assert StepRight(cs[i - 1], st) == Go(st) && StepRight(cs[i], st) == Go(st);
    PassedOverLeft(line, i, st);
  }
}
