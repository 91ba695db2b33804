/**
  CloseExpression started at a template bracket <. When the < goes onto the stack, a
  success means what a caller hopes for; when it does not, the finder answers for
  another opener further along the line.
 */
module AnglePairs {
  import opened Brackets
  import opened FileText
  import opened LineScan
  import opened FilePairs
  import opened AngleChars
  import opened Framing

  // ---------- outside groups, the stack is a count

  /** A > that closes a template list. */
  predicate Closes(c: Cell) {
    c.ch == '>' && !c.plainRight
  }

  /** The count after the character c, which is no bracket; a count of zero ends the scan. */
  function Counted(c: Cell, n: nat): nat
    requires n > 0
  {
    if c.ch == ';' then 0
    else if c.ch == '<' then
      if c.afterAngle then n - 1 else if c.afterOperator then n else n + 1
    else if Closes(c) then n - 1
    else n
  }

  /** The count after the text that d derives from i on: groups do not count. */
  ghost function Count(d: Dyck, cs: seq<Cell>, i: nat, n: nat): nat {
    if n == 0 then 0
    else
      match d
      case Empty => n
      case Other(rest) => if i < |cs| then Count(rest, cs, i + 1, Counted(cs[i], n)) else n
      case Group(inner, rest) => Count(rest, cs, i + 2 + inner.Length(), n)
  }

  lemma {:induction false} StepRightAngles(c: Cell, n: nat)
    requires n > 0 && !IsBracket(c.ch)
    ensures StepRight(c, Angles(n, '<')) ==
            if Closes(c) && n == 1 then Stop
            else if Counted(c, n) == 0 then Fail
            else Go(Angles(Counted(c, n), '<'))
  {
    AnglesTop(n, '<');
    if c.ch == ';' {
      AnglesStrip(n, '<');
    } else if c.ch == '<' {
      AnglesTop(n + 1, '<');
    }
  }

  lemma {:induction false} CloseRightAngles(c: Cell, n: nat)
    requires n > 0 && IsClose(c.ch)
    ensures StepRight(c, Angles(n, '<')) == Fail
  {
    AnglesStrip(n, '<');
  }

  /** Balanced text moves the count on. */
  lemma {:induction false} CountOver(d: Dyck, cs: seq<Cell>, i: nat, q: nat, n: nat)
    requires d.Derives(Chars(cs), i, q) && n > 0 && Count(d, cs, i, n) > 0
    ensures ScanRight(cs, i, Angles(n, '<')) == ScanRight(cs, q, Angles(Count(d, cs, i, n), '<'))
    decreases d
  {
    match d {
      case Empty =>
      case Other(rest) =>
        StepRightAngles(cs[i], n);
        CountStays(rest, cs, i + 1);
        CountOver(rest, cs, i + 1, q, Counted(cs[i], n));
      case Group(inner, rest) =>
        var k := i + 1 + inner.Length();
        assert Matching(Chars(cs), i, k);
        RightOverGroup(cs, i, k, Angles(n, '<'));
        CountOver(rest, cs, k + 1, q, n);
    }
  }

  lemma CountStays(d: Dyck, cs: seq<Cell>, i: nat)
    ensures Count(d, cs, i, 0) == 0
  {
  }

  /** A scan that succeeds passes each bracket that opens, to its partner. */
  lemma {:induction false} GroupPassed(cs: seq<Cell>, i: nat, n: nat, q: nat) returns (k: nat)
    requires i < |cs| && n > 0 && IsOpen(cs[i].ch) && ScanRight(cs, i, Angles(n, '<')) == Stopped(q)
    ensures i < k < |cs| && Matching(Chars(cs), i, k) && ScanRight(cs, k + 1, Angles(n, '<')) == Stopped(q)
  {
    var partner := Forward(Chars(cs), i + 1, [cs[i].ch]);
    if partner.NotFound? {
      RightWithoutPartner(cs, i, Angles(n, '<'));
    }
    k := partner.pos;
    ForwardExact(Chars(cs), i, k);
    RightOverGroup(cs, i, k, Angles(n, '<'));
  }

  lemma {:induction false} OtherCounted(cs: seq<Cell>, i: nat, q: nat, n: nat, rest: Dyck) returns (d: Dyck)
    requires i < |cs| && n > 0 && !IsOpen(cs[i].ch) && !IsClose(cs[i].ch)
    requires rest.Derives(Chars(cs), i + 1, q)
    ensures d.Derives(Chars(cs), i, q) && Count(d, cs, i, n) == Count(rest, cs, i + 1, Counted(cs[i], n))
  {
    d := Other(rest);
  }

  /** A scan that succeeds has passed balanced text that leaves the count at one. */
  lemma {:induction false} CountSplits(cs: seq<Cell>, i: nat, n: nat, q: nat) returns (d: Dyck)
    requires i <= |cs| && n > 0 && ScanRight(cs, i, Angles(n, '<')) == Stopped(q)
    ensures q < |cs| && Closes(cs[q]) && d.Derives(Chars(cs), i, q) && Count(d, cs, i, n) == 1
    decreases |cs| - i
  {
    var c := cs[i];
    if IsOpen(c.ch) {
      var k := GroupPassed(cs, i, n, q);
      var rest := CountSplits(cs, k + 1, n, q);
      d := GroupCounted(cs, i, k, q, n, rest);
    } else if IsClose(c.ch) {
      CloseRightAngles(c, n);
    } else {
      StepRightAngles(c, n);
      if Closes(c) && n == 1 {
        d := Empty;
      } else {
        var rest := CountSplits(cs, i + 1, Counted(c, n), q);
        d := OtherCounted(cs, i, q, n, rest);
      }
    }
  }

  lemma GroupCounted(cs: seq<Cell>, i: nat, k: nat, q: nat, n: nat, rest: Dyck) returns (d: Dyck)
    requires n > 0 && Matching(Chars(cs), i, k) && q <= |cs| && rest.Derives(Chars(cs), k + 1, q)
    ensures d.Derives(Chars(cs), i, q) && Count(d, cs, i, n) == Count(rest, cs, k + 1, n)
  {
    var inner: Dyck :| inner.Derives(Chars(cs), i + 1, k);
    GroupDerives(Chars(cs), i, k, q, inner, rest, ';');
    DerivesLength(inner, Chars(cs), i + 1, k);
    d := Group(inner, rest);
  }

  /** Balanced text from i to q takes the count from n to one without reaching zero before. */
  ghost predicate CountsDown(cs: seq<Cell>, i: nat, n: nat, q: nat) {
    exists d: Dyck :: d.Derives(Chars(cs), i, q) && Count(d, cs, i, n) == 1
  }

  /** A scan from a count of n ends at q exactly when the count first reaches zero with the > at q. */
  lemma CountExact(cs: seq<Cell>, i: nat, n: nat, q: nat)
    requires i <= |cs| && n > 0
    ensures ScanRight(cs, i, Angles(n, '<')) == Stopped(q) <==> q < |cs| && Closes(cs[q]) && CountsDown(cs, i, n, q)
  {
    if ScanRight(cs, i, Angles(n, '<')) == Stopped(q) {
      var d := CountSplits(cs, i, n, q);
    }
    if q < |cs| && Closes(cs[q]) && CountsDown(cs, i, n, q) {
      var d: Dyck :| d.Derives(Chars(cs), i, q) && Count(d, cs, i, n) == 1;
      CountOver(d, cs, i, q, n);
      StepRightAngles(cs[q], 1);
    }
  }

  /** Started at a < that goes onto the stack, CloseExpression is a scan of the text after it. */
  lemma CloseAngleAt(lines: seq<string>, l: nat, p: nat, l': nat, q: nat)
    requires IsPlace(lines, l, p) && lines[l][p] == '<' && Pushed(lines[l], p) && IsPlace(lines, l', q)
    ensures Offset(lines, l, p) + 1 <= |FlatCells(lines)|
    ensures CloseAt(lines, l, p) == At(l', q) <==>
            ScanRight(FlatCells(lines), Offset(lines, l, p) + 1, ['<']) == Stopped(Offset(lines, l', q))
  {
    CloseFromPushed(lines, l, p);
    RightAt(lines, l, p + 1, ['<'], l', q);
  }

  lemma AngleOnCells(lines: seq<string>, l: nat, p: nat, l': nat, q: nat)
    requires IsPlace(lines, l, p) && lines[l][p] == '<' && Pushed(lines[l], p) && IsPlace(lines, l', q)
    ensures CloseAt(lines, l, p) == At(l', q) <==>
            Closes(CellAt(lines[l'], q)) &&
            CountsDown(FlatCells(lines), Offset(lines, l, p) + 1, 1, Offset(lines, l', q))
  {
    var cs, from, to := FlatCells(lines), Offset(lines, l, p + 1), Offset(lines, l', q);
    OffsetChar(lines, l', q);
    CloseAngleAt(lines, l, p, l', q);
    assert Angles(1, '<') == ['<'];
    CountExact(cs, from, 1, to);
  }

  /**
    From a < that starts a list, CloseExpression ends at a place exactly when a > stands
    there that is no part of -> and not after the word operator, the text between is
    balanced in the three kinds of bracket, and the count of template brackets outside
    them, one at first, first reaches zero with that >.
   */
  lemma AngleExact(lines: seq<string>, l: nat, p: nat, l': nat, q: nat)
    requires IsPlace(lines, l, p) && StartsList(lines[l], p) && IsPlace(lines, l', q)
    ensures CloseAt(lines, l, p) == At(l', q) <==>
            && lines[l'][q] == '>' && !PassedRight(lines[l'], q)
            && CountsDown(TextCells(lines), Offset(lines, l, p) + 1, 1, Offset(lines, l', q))
  {
    StartsListExactly(lines[l], p);
    TestsExactly(lines[l'], q);
    CellsAreText(lines);
    AngleOnCells(lines, l, p, l', q);
  }

  /** No semicolon outside groups leaves a count. */
  lemma {:induction false} CountNoSemicolon(d: Dyck, cs: seq<Cell>, i: nat, q: nat, n: nat)
    requires d.Derives(Chars(cs), i, q) && Count(d, cs, i, n) > 0
    ensures !d.AtTop(Chars(cs), i, ';')
    decreases d
  {
    match d {
      case Empty =>
      case Other(rest) =>
        CountStays(rest, cs, i + 1);
        CountNoSemicolon(rest, cs, i + 1, q, Counted(cs[i], n));
      case Group(inner, rest) =>
        CountNoSemicolon(rest, cs, i + 2 + inner.Length(), q, n);
    }
  }

  /**
    In particular a success ends at a >, the text between is balanced in the three kinds
    of bracket, and no semicolon stands in it outside them.
   */
  lemma AngleClosed(lines: seq<string>, l: nat, p: nat) returns (d: Dyck)
    requires IsPlace(lines, l, p) && StartsList(lines[l], p)
    requires CloseAt(lines, l, p).At?
    ensures var At(l', q) := CloseAt(lines, l, p);
            var from := Offset(lines, l, p) + 1;
            && lines[l'][q] == '>'
            && d.Derives(Flat(lines), from, Offset(lines, l', q))
            && !d.AtTop(Flat(lines), from, ';')
  {
    var r := CloseAt(lines, l, p);
    var cs, from, to := FlatCells(lines), Offset(lines, l, p) + 1, Offset(lines, r.line, r.pos);
    StartsListExactly(lines[l], p);
    AngleOnCells(lines, l, p, r.line, r.pos);
    d :| d.Derives(Chars(cs), from, to) && Count(d, cs, from, 1) == 1;
    CountNoSemicolon(d, cs, from, to, 1);
    FlatChars(lines);
  }

  // ---------- a < that does not go onto the stack

  /** With nothing on the stack, a scan passes on to the next opener o, or comes to nothing. */
  lemma {:induction false} EmptyStackSkips(cs: seq<Cell>, i: nat) returns (o: nat)
    requires i <= |cs|
    ensures i <= o <= |cs|
    ensures if o == |cs| then ScanRight(cs, i, []) == Dead || ScanRight(cs, i, []) == Open([])
            else (cs[o].ch == '<' || IsOpen(cs[o].ch)) && ScanRight(cs, i, []) == ScanRight(cs, o + 1, [cs[o].ch])
    decreases |cs| - i
  {
    o := |cs|;
    if i < |cs| {
      var step := StepRight(cs[i], []);
      EmptyStackStep(cs[i]);
      if step == Go([]) {
        o := EmptyStackSkips(cs, i + 1);
      } else if step.Go? {
        o := i;
      }
    }
  }

  lemma EmptyStackStep(c: Cell)
    ensures var step := StepRight(c, []);
            step == Fail || step == Go([]) || (step == Go([c.ch]) && (c.ch == '<' || IsOpen(c.ch)))
  {
    assert [] + [c.ch] == [c.ch];
    assert Strip([], '<') == [];
  }

  /**
    From a < that does not go onto the stack, a success is the answer for a later opener
    of the same line.
   */
  lemma UnpushedAnswersForAnother(lines: seq<string>, l: nat, p: nat) returns (o: nat)
    requires IsPlace(lines, l, p) && lines[l][p] == '<' && !StartsList(lines[l], p)
    requires CloseAt(lines, l, p).At?
    ensures p < o < |lines[l]| && (lines[l][o] == '<' || IsOpen(lines[l][o]))
    ensures CloseAt(lines, l, p) == RightFrom(CellLines(lines), l, o + 1, [lines[l][o]])
  {
    var cs := LineCells(lines[l]);
    StartsListExactly(lines[l], p);
    assert cs[p] == CellAt(lines[l], p);
    assert ScanRight(cs, p, []) == ScanRight(cs, p + 1, []);
    o := EmptyStackSkips(cs, p + 1);
  }

  /** On x<<(a) the second < is not pushed, and the answer is the parenthesis. */
  lemma UnpushedExample()
    ensures var lines := ["x<<(a)"];
            && lines[0][2] == '<' && !Pushed(lines[0], 2)
            && CloseAt(lines, 0, 2) == At(0, 5) && lines[0][5] == ')'
  {
    var line := "x<<(a)";
    var cs := LineCells(line);
    assert cs[2] == CellAt(line, 2) && cs[3] == CellAt(line, 3);
    assert cs[4] == CellAt(line, 4) && cs[5] == CellAt(line, 5);
    assert [] + ['('] == ['('];
    assert ScanRight(cs, 2, []) == ScanRight(cs, 3, []);
    assert ScanRight(cs, 3, []) == ScanRight(cs, 4, ['(']);
    assert ScanRight(cs, 4, ['(']) == ScanRight(cs, 5, ['(']);
    assert Strip(['('], '<') == ['('];
    assert ScanRight(cs, 5, ['(']) == Stopped(5);
  }
}
