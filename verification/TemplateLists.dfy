/**
  Template argument lists: on text that is well formed, the finders do match < with >.
  A grammar of such text, and the proof that from the < of a list CloseExpression finds
  its > and from that > ReverseCloseExpression finds the < again.
 */
module TemplateLists {
  import opened Brackets
  import opened FileText
  import opened LineScan
  import opened FilePairs
  import opened AngleChars
  import opened Framing
  import opened AnglePairs
  import opened AnglePairsLeft

  /** A character that both finders pass by: no bracket of any kind and no semicolon. */
  predicate Inert(c: Cell) {
    !IsBracket(c.ch) && c.ch != '<' && c.ch != '>' && c.ch != ';'
  }

  /** An operator such as ->, which both finders recognise. */
  predicate Arrow(c: Cell) {
    c.ch == '>' && c.plainRight && c.plainLeft
  }

  predicate OpensList(c: Cell) {
    c.ch == '<' && !c.afterAngle && !c.afterOperator
  }

  predicate ClosesList(c: Cell) {
    c.ch == '>' && !c.plainRight && !c.plainLeft
  }

  /** A shift operator <<. */
  predicate Shift(c: Cell, d: Cell) {
    OpensList(c) && d.ch == '<' && d.afterAngle
  }

  /** The inside of a template argument list: other characters, shifts, bracketed groups, nested lists. */
  datatype Arguments =
    | NoMore
    | Character(rest: Arguments)
    | LeftShift(rest: Arguments)
    | Bracketed(inner: Dyck, rest: Arguments)
    | List(args: Arguments, rest: Arguments)
  {
    ghost function Length(): nat {
      match this
      case NoMore => 0
      case Character(rest) => 1 + rest.Length()
      case LeftShift(rest) => 2 + rest.Length()
      case Bracketed(inner, rest) => inner.Length() + rest.Length() + 2
      case List(args, rest) => args.Length() + rest.Length() + 2
    }

    /** This derives the cells from i to j. */
    ghost predicate Derives(cs: seq<Cell>, i: nat, j: nat) {
      && i <= j <= |cs|
      && match this
         case NoMore => i == j
         case Character(rest) => i < j && (Inert(cs[i]) || Arrow(cs[i])) && rest.Derives(cs, i + 1, j)
         case LeftShift(rest) => i + 1 < j && Shift(cs[i], cs[i + 1]) && rest.Derives(cs, i + 2, j)
         case Bracketed(inner, rest) =>
           var k := i + 1 + inner.Length();
           k < j && Pairs(cs[i].ch, cs[k].ch) && inner.Derives(Chars(cs), i + 1, k) && rest.Derives(cs, k + 1, j)
         case List(args, rest) =>
           var k := i + 1 + args.Length();
           k < j && OpensList(cs[i]) && ClosesList(cs[k]) && args.Derives(cs, i + 1, k) && rest.Derives(cs, k + 1, j)
    }
  }

  // ---------- a list leaves a scan as it was, and so does its inside

  lemma RightOverAngles(cs: seq<Cell>, i: nat, k: nat, st: seq<char>)
    requires i < k < |cs| && OpensList(cs[i]) && ClosesList(cs[k]) && st != []
    requires ScanRight(cs, i + 1, st + ['<']) == ScanRight(cs, k, st + ['<'])
    ensures ScanRight(cs, i, st) == ScanRight(cs, k + 1, st)
  {
    assert StepRight(cs[i], st) == Go(st + ['<']);
    assert Pop(st + ['<']) == st;
    assert StepRight(cs[k], st + ['<']) == Go(st);
  }

  lemma LeftOverAngles(cs: seq<Cell>, i: nat, k: nat, st: seq<char>)
    requires i < k < |cs| && OpensList(cs[i]) && ClosesList(cs[k]) && st != []
    requires ScanLeft(cs, k, st + ['>']) == ScanLeft(cs, i + 1, st + ['>'])
    ensures ScanLeft(cs, k + 1, st) == ScanLeft(cs, i, st)
  {
    assert StepLeft(cs[k], st) == Go(st + ['>']) && NextLeft(cs, k + 1) == k;
    assert Pop(st + ['>']) == st;
    assert StepLeft(cs[i], st + ['>']) == Go(st) && NextLeft(cs, i + 1) == i;
  }

  lemma RightOverShift(cs: seq<Cell>, i: nat, st: seq<char>)
    requires i + 1 < |cs| && Shift(cs[i], cs[i + 1]) && st != []
    ensures ScanRight(cs, i, st) == ScanRight(cs, i + 2, st)
  {
    assert StepRight(cs[i], st) == Go(st + ['<']);
    assert Pop(st + ['<']) == st;
    assert StepRight(cs[i + 1], st + ['<']) == Go(st);
  }

  lemma LeftOverShift(cs: seq<Cell>, i: nat, st: seq<char>)
    requires i + 1 < |cs| && Shift(cs[i], cs[i + 1]) && st != []
    ensures ScanLeft(cs, i + 2, st) == ScanLeft(cs, i, st)
  {
    assert StepLeft(cs[i + 1], st) == Go(st) && NextLeft(cs, i + 2) == i;
  }

  lemma {:induction false} RightOver(cs: seq<Cell>, i: nat, j: nat, st: seq<char>, d: Arguments)
    requires st != [] && Top(st) == '<' && d.Derives(cs, i, j)
    ensures ScanRight(cs, i, st) == ScanRight(cs, j, st)
    decreases d
  {
    match d {
      case NoMore =>
      case Character(rest) =>
        assert StepRight(cs[i], st) == Go(st);
        RightOver(cs, i + 1, j, st, rest);
      case LeftShift(rest) =>
        RightOverShift(cs, i, st);
        RightOver(cs, i + 2, j, st, rest);
      case Bracketed(inner, rest) =>
        var k := i + 1 + inner.Length();
        assert Matching(Chars(cs), i, k);
        RightOverGroup(cs, i, k, st);
        RightOver(cs, k + 1, j, st, rest);
      case List(args, rest) =>
        var k := i + 1 + args.Length();
        var deeper := st + ['<'];
        assert Top(deeper) == '<';
        RightOver(cs, i + 1, k, deeper, args);
        RightOverAngles(cs, i, k, st);
        RightOver(cs, k + 1, j, st, rest);
    }
  }

  /** What the scan to the left passes over before an arrow is inert. */
  ghost predicate ArrowsFollowInert(cs: seq<Cell>) {
    forall i: nat | i < |cs| :: ArrowFollowsInert(cs, i)
  }

  ghost predicate ArrowFollowsInert(cs: seq<Cell>, i: nat)
    requires i < |cs|
  {
    Arrow(cs[i]) ==> 0 < i && Inert(cs[i - 1])
  }

  lemma LeftOverCharacter(cs: seq<Cell>, i: nat, st: seq<char>)
    requires ArrowsFollowInert(cs) && i < |cs| && st != [] && (Inert(cs[i]) || Arrow(cs[i]))
    ensures ScanLeft(cs, i + 1, st) == ScanLeft(cs, i, st)
  {
    assert StepLeft(cs[i], st) == Go(st);
    assert ArrowFollowsInert(cs, i);
    if Arrow(cs[i]) {
      assert NextLeft(cs, i + 1) == i - 1;
      assert StepLeft(cs[i - 1], st) == Go(st) && NextLeft(cs, i) == i - 1;
    }
  }

  lemma {:induction false} LeftOver(cs: seq<Cell>, i: nat, j: nat, st: seq<char>, d: Arguments)
    requires SkipsHarmless(cs) && ArrowsFollowInert(cs)
    requires st != [] && Top(st) == '>' && d.Derives(cs, i, j)
    ensures ScanLeft(cs, j, st) == ScanLeft(cs, i, st)
    decreases d
  {
    match d {
      case NoMore =>
      case Character(rest) =>
        LeftOver(cs, i + 1, j, st, rest);
        LeftOverCharacter(cs, i, st);
      case LeftShift(rest) =>
        LeftOver(cs, i + 2, j, st, rest);
        LeftOverShift(cs, i, st);
      case Bracketed(inner, rest) =>
        var k := i + 1 + inner.Length();
        LeftOver(cs, k + 1, j, st, rest);
        assert Matching(Chars(cs), i, k);
        LeftOverGroup(cs, i, k, st);
      case List(args, rest) =>
        var k := i + 1 + args.Length();
        LeftOver(cs, k + 1, j, st, rest);
        var deeper := st + ['>'];
        assert Top(deeper) == '>';
        LeftOver(cs, i + 1, k, deeper, args);
        LeftOverAngles(cs, i, k, st);
    }
  }

  lemma RightToClose(cs: seq<Cell>, i: nat, to: nat, d: Arguments)
    requires to < |cs| && ClosesList(cs[to]) && d.Derives(cs, i, to)
    ensures ScanRight(cs, i, ['<']) == Stopped(to)
  {
    RightOver(cs, i, to, ['<'], d);
    assert StepRight(cs[to], ['<']) == Stop;
  }

  lemma LeftToOpen(cs: seq<Cell>, from: nat, j: nat, d: Arguments)
    requires SkipsHarmless(cs) && ArrowsFollowInert(cs)
    requires from < |cs| && OpensList(cs[from]) && d.Derives(cs, from + 1, j)
    ensures ScanLeft(cs, j, ['>']) == Stopped(from)
  {
    LeftOver(cs, from + 1, j, ['>'], d);
    assert StepLeft(cs[from], ['>']) == Stop;
  }

  // ---------- on the lines of a file

  lemma LineArrows(line: string)
    ensures ArrowsFollowInert(LineCells(line))
  {
    var cs := LineCells(line);
    forall i: nat | i < |cs|
      ensures ArrowFollowsInert(cs, i)
    {
      if OperatorBefore(line, i) {
        SpaceOrOperatorBefore(line, i);
      }
    }
  }

  lemma {:induction false} FileArrows(lines: seq<string>)
    ensures ArrowsFollowInert(FlatCells(lines))
  {
    if lines != [] {
      LineArrows(lines[0]);
      FileArrows(lines[1..]);
      assert CellLines(lines)[1..] == CellLines(lines[1..]);
      var head, tail := LineCells(lines[0]), FlatCells(lines[1..]);
      var all := head + tail;
      assert FlatCells(lines) == all;
      forall i: nat | i < |all|
        ensures ArrowFollowsInert(all, i)
      {
        if i < |head| {
          assert ArrowFollowsInert(head, i);
        } else {
          assert ArrowFollowsInert(tail, i - |head|);
        }
      }
    }
  }

  /** A template argument list of the file: its < and its >, with arguments between. */
  ghost predicate TemplateList(lines: seq<string>, l: nat, p: nat, l': nat, q: nat, d: Arguments)
    requires IsPlace(lines, l, p) && IsPlace(lines, l', q)
  {
    && StartsList(lines[l], p)
    && lines[l'][q] == '>' && !PassedRight(lines[l'], q) && !PassedLeft(lines[l'], q)
    && d.Derives(TextCells(lines), Offset(lines, l, p) + 1, Offset(lines, l', q))
  }

  lemma ListEnds(lines: seq<string>, l: nat, p: nat, l': nat, q: nat, d: Arguments)
    requires IsPlace(lines, l, p) && IsPlace(lines, l', q) && TemplateList(lines, l, p, l', q, d)
    ensures lines[l][p] == '<' && Pushed(lines[l], p) && lines[l'][q] == '>' && !PlainLeft(lines[l'], q)
    ensures var cs, from, to := FlatCells(lines), Offset(lines, l, p), Offset(lines, l', q);
            && from < |cs| && OpensList(cs[from]) && to < |cs| && ClosesList(cs[to])
            && d.Derives(cs, from + 1, to)
  {
    StartsListExactly(lines[l], p);
    TestsExactly(lines[l'], q);
    CellsAreText(lines);
    OffsetChar(lines, l, p);
    OffsetChar(lines, l', q);
  }

  /** From the < of a list CloseExpression finds its >. */
  lemma ClosesTemplateList(lines: seq<string>, l: nat, p: nat, l': nat, q: nat, d: Arguments)
    requires IsPlace(lines, l, p) && IsPlace(lines, l', q) && TemplateList(lines, l, p, l', q, d)
    ensures CloseAt(lines, l, p) == At(l', q)
  {
    ListEnds(lines, l, p, l', q, d);
    CloseAngleAt(lines, l, p, l', q);
    RightToClose(FlatCells(lines), Offset(lines, l, p) + 1, Offset(lines, l', q), d);
  }

  /** From that > ReverseCloseExpression finds the < again. */
  lemma ReversesTemplateList(lines: seq<string>, l: nat, p: nat, l': nat, q: nat, d: Arguments)
    requires IsPlace(lines, l, p) && IsPlace(lines, l', q) && TemplateList(lines, l, p, l', q, d)
    ensures ReverseAt(lines, l', q) == At(l, p)
  {
    ListEnds(lines, l, p, l', q, d);
    FileSkipsHarmless(lines);
    FileArrows(lines);
    ReverseAngleAt(lines, l, p, l', q);
    LeftToOpen(FlatCells(lines), Offset(lines, l, p), Offset(lines, l', q), d);
  }
}
