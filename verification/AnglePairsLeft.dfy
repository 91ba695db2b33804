/**
  ReverseCloseExpression started at a template bracket >: outside groups its stack is a
  count, read from right to left with some characters passed over unread.
 */
module AnglePairsLeft {
  import opened Brackets
  import opened FileText
  import opened LineScan
  import opened FilePairs
  import opened AngleChars
  import opened Framing

  /** A < that opens a template list. */
  predicate OpensAngle(c: Cell) {
    c.ch == '<' && !c.afterAngle
  }

  /** The count after the character c, which is no bracket; a count of zero ends the scan. */
  function CountedBack(c: Cell, n: nat): nat
    requires n > 0
  {
    if c.ch == ';' then 0
    else if c.ch == '>' then if c.plainLeft then n else n + 1
    else if OpensAngle(c) then n - 1
    else n
  }

  /** The count, and whether the next character to the left is passed over. */
  datatype Reading = Reading(count: nat, skip: bool)

  function Read(c: Cell, r: Reading): Reading {
    if r.count == 0 then r
    else if r.skip then Reading(r.count, false)
    else Reading(CountedBack(c, r.count), Skips(c))
  }

  /** Reading, from its end, the text that d derives from i on: groups do not count. */
  ghost function CountBack(d: Dyck, cs: seq<Cell>, i: nat, r: Reading): Reading {
    match d
    case Empty => r
    case Other(rest) =>
      var after := CountBack(rest, cs, i + 1, r);
      if i < |cs| then Read(cs[i], after) else after
    case Group(inner, rest) => Reading(CountBack(rest, cs, i + 2 + inner.Length(), r).count, false)
  }

  lemma {:induction false} CountBackAppend(a: Dyck, b: Dyck, cs: seq<Cell>, i: nat, r: Reading)
    ensures CountBack(a.Append(b), cs, i, r) == CountBack(a, cs, i, CountBack(b, cs, i + a.Length(), r))
  {
    match a {
      case Empty =>
      case Other(rest) => CountBackAppend(rest, b, cs, i + 1, r);
      case Group(inner, rest) => CountBackAppend(rest, b, cs, i + 2 + inner.Length(), r);
    }
  }

  lemma {:induction false} StepLeftAngles(c: Cell, n: nat)
    requires n > 0 && !IsBracket(c.ch)
    ensures StepLeft(c, Angles(n, '>')) ==
            if OpensAngle(c) && n == 1 then Stop
            else if CountedBack(c, n) == 0 then Fail
            else Go(Angles(CountedBack(c, n), '>'))
  {
    AnglesTop(n, '>');
    if c.ch == ';' {
      AnglesStrip(n, '>');
    } else if c.ch == '>' {
      AnglesTop(n + 1, '>');
    }
  }

  lemma {:induction false} OpenLeftAngles(c: Cell, n: nat)
    requires n > 0 && IsOpen(c.ch)
    ensures StepLeft(c, Angles(n, '>')) == Fail
  {
    AnglesStrip(n, '>');
  }

  /** Where the scan goes on, left of i. */
  function Before(i: nat, skip: bool): nat {
    if skip && i > 0 then i - 1 else i
  }

  /** Balanced text moves the reading on. */
  lemma {:induction false} CountBackOver(d: Dyck, cs: seq<Cell>, i: nat, j: nat, n: nat)
    requires SkipsHarmless(cs) && d.Derives(Chars(cs), i, j) && n > 0
    requires CountBack(d, cs, i, Reading(n, false)).count > 0
    ensures var r := CountBack(d, cs, i, Reading(n, false));
            && (r.skip ==> i < |cs| && Skips(cs[i]))
            && ScanLeft(cs, j, Angles(n, '>')) == ScanLeft(cs, Before(i, r.skip), Angles(r.count, '>'))
    decreases d
  {
    match d {
      case Empty =>
      case Other(rest) =>
        CountBackOver(rest, cs, i + 1, j, n);
        var after := CountBack(rest, cs, i + 1, Reading(n, false));
        StepLeftAngles(cs[i], after.count);
        if !after.skip {
          assert NextLeft(cs, i + 1) == Before(i, Skips(cs[i]));
        }
      case Group(inner, rest) =>
        var k := i + 1 + inner.Length();
        assert Matching(Chars(cs), i, k);
        CountBackOver(rest, cs, k + 1, j, n);
        var after := CountBack(rest, cs, k + 1, Reading(n, false));
        if k + 1 < |cs| {
          assert SkipHarmless(cs, k + 1);
        }
        assert Chars(cs)[k] == cs[k].ch && !after.skip;
        LeftOverGroup(cs, i, k, Angles(after.count, '>'));
    }
  }

  /** The text to the right of a stretch, added to its derivation. */
  lemma Prolong(d: Dyck, last: Dyck, cs: seq<Cell>, i: nat, k: nat, j: nat, r: Reading, mid: Reading)
    requires d.Derives(Chars(cs), i, k) && last.Derives(Chars(cs), k, j)
    requires CountBack(last, cs, k, r) == mid
    ensures d.Append(last).Derives(Chars(cs), i, j) && CountBack(d.Append(last), cs, i, r) == CountBack(d, cs, i, mid)
  {
    AppendDerives(d, last, Chars(cs), i, k, j);
    DerivesLength(d, Chars(cs), i, k);
    CountBackAppend(d, last, cs, i, r);
  }

  /** The characters that one step of the scan passes. */
  lemma StepPassed(cs: seq<Cell>, j: nat, n: nat) returns (last: Dyck)
    requires SkipsHarmless(cs) && 0 < j <= |cs| && n > 0 && !IsBracket(cs[j - 1].ch) && CountedBack(cs[j - 1], n) > 0
    requires NextLeft(cs, j) > 0
    ensures last.Derives(Chars(cs), NextLeft(cs, j), j)
    ensures CountBack(last, cs, NextLeft(cs, j), Reading(n, false)) == Reading(CountedBack(cs[j - 1], n), false)
  {
    last := Other(Empty);
    var one := Reading(CountedBack(cs[j - 1], n), Skips(cs[j - 1]));
    assert CountBack(last, cs, j - 1, Reading(n, false)) == Read(cs[j - 1], Reading(n, false)) == one;
    assert last.Derives(Chars(cs), j - 1, j);
    if Skips(cs[j - 1]) {
      last := Other(last);
      assert SkipHarmless(cs, j - 1) && !IsBracket(Chars(cs)[j - 2]);
      assert CountBack(last, cs, j - 2, Reading(n, false)) == Read(cs[j - 2], one);
    }
  }

  /** A scan that succeeds has passed balanced text that leaves the count at one. */
  lemma {:induction false} CountBackSplits(cs: seq<Cell>, j: nat, n: nat, p: nat) returns (d: Dyck)
    requires SkipsHarmless(cs) && j <= |cs| && n > 0 && ScanLeft(cs, j, Angles(n, '>')) == Stopped(p)
    ensures p < j && OpensAngle(cs[p]) && d.Derives(Chars(cs), p + 1, j)
    ensures CountBack(d, cs, p + 1, Reading(n, false)) == Reading(1, false)
    decreases j, 1
  {
    var c := cs[j - 1];
    if IsClose(c.ch) {
      var k := PartnerPassed(cs, j, n);
      d := CountBackSplits(cs, k, n, p);
      var last := GroupPassed(cs, k, j, n);
      Prolong(d, last, cs, p + 1, k, j, Reading(n, false), Reading(n, false));
      d := d.Append(last);
    } else if IsOpen(c.ch) {
      OpenLeftAngles(c, n);
    } else {
      d := CountBackSplitsOther(cs, j, n, p);
    }
  }

  lemma {:induction false} CountBackSplitsOther(cs: seq<Cell>, j: nat, n: nat, p: nat) returns (d: Dyck)
    requires SkipsHarmless(cs) && 0 < j <= |cs| && n > 0 && !IsBracket(cs[j - 1].ch)
    requires ScanLeft(cs, j, Angles(n, '>')) == Stopped(p)
    ensures p < j && OpensAngle(cs[p]) && d.Derives(Chars(cs), p + 1, j)
    ensures CountBack(d, cs, p + 1, Reading(n, false)) == Reading(1, false)
    decreases j, 0
  {
    var c := cs[j - 1];
    StepLeftAngles(c, n);
    if OpensAngle(c) && n == 1 {
      d := Empty;
    } else {
      var k := NextLeft(cs, j);
      d := CountBackSplits(cs, k, CountedBack(c, n), p);
      var last := StepPassed(cs, j, n);
      Prolong(d, last, cs, p + 1, k, j, Reading(n, false), Reading(CountedBack(c, n), false));
      d := d.Append(last);
    }
  }

  lemma GroupPassed(cs: seq<Cell>, k: nat, j: nat, n: nat) returns (last: Dyck)
    requires 0 < j && Matching(Chars(cs), k, j - 1)
    ensures last.Derives(Chars(cs), k, j) && CountBack(last, cs, k, Reading(n, false)) == Reading(n, false)
  {
    var inner: Dyck :| inner.Derives(Chars(cs), k + 1, j - 1);
    GroupDerives(Chars(cs), k, j - 1, j, inner, Empty, ';');
    last := Group(inner, Empty);
  }

  lemma PartnerPassed(cs: seq<Cell>, j: nat, n: nat) returns (k: nat)
    requires SkipsHarmless(cs) && 0 < j <= |cs| && n > 0 && IsClose(cs[j - 1].ch)
    requires ScanLeft(cs, j, Angles(n, '>')).Stopped?
    ensures Matching(Chars(cs), k, j - 1) && ScanLeft(cs, j, Angles(n, '>')) == ScanLeft(cs, k, Angles(n, '>'))
  {
    var partner := Backward(Chars(cs), j - 1, [cs[j - 1].ch]);
    if partner.NotFound? {
      LeftWithoutPartner(cs, j - 1, Angles(n, '>'));
    }
    k := partner.pos;
    BackwardExact(Chars(cs), k, j - 1);
    LeftOverGroup(cs, k, j - 1, Angles(n, '>'));
  }

  /** Balanced text from i to j, read from its end, takes the count from n to one and ends at i. */
  ghost predicate CountsBack(cs: seq<Cell>, i: nat, j: nat, n: nat) {
    exists d: Dyck :: d.Derives(Chars(cs), i, j) && CountBack(d, cs, i, Reading(n, false)) == Reading(1, false)
  }

  /** A scan from a count of n ends at p exactly when the count first reaches zero with the < at p. */
  lemma CountBackExact(cs: seq<Cell>, j: nat, n: nat, p: nat)
    requires SkipsHarmless(cs) && j <= |cs| && n > 0
    ensures ScanLeft(cs, j, Angles(n, '>')) == Stopped(p) <==> p < j && OpensAngle(cs[p]) && CountsBack(cs, p + 1, j, n)
  {
    if ScanLeft(cs, j, Angles(n, '>')) == Stopped(p) {
      var d := CountBackSplits(cs, j, n, p);
    }
    if p < j && OpensAngle(cs[p]) && CountsBack(cs, p + 1, j, n) {
      var d: Dyck :| d.Derives(Chars(cs), p + 1, j) && CountBack(d, cs, p + 1, Reading(n, false)) == Reading(1, false);
      CountBackStops(d, cs, j, n, p);
    }
  }

  lemma CountBackStops(d: Dyck, cs: seq<Cell>, j: nat, n: nat, p: nat)
    requires SkipsHarmless(cs) && p < j <= |cs| && n > 0 && OpensAngle(cs[p])
    requires d.Derives(Chars(cs), p + 1, j) && CountBack(d, cs, p + 1, Reading(n, false)) == Reading(1, false)
    ensures ScanLeft(cs, j, Angles(n, '>')) == Stopped(p)
  {
    CountBackOver(d, cs, p + 1, j, n);
    StepLeftAngles(cs[p], 1);
  }

  lemma ReverseFromAngle(lines: seq<string>, l: nat, q: nat)
    requires IsPlace(lines, l, q) && lines[l][q] == '>' && !PlainLeft(lines[l], q)
    ensures ReverseAt(lines, l, q) == LeftFrom(CellLines(lines), l, q, ['>'])
  {
    var cs := LineCells(lines[l]);
    assert [] + ['>'] == ['>'];
    assert cs[q] == CellAt(lines[l], q);
    assert StepLeft(cs[q], []) == Go(['>']) && NextLeft(cs, q + 1) == q;
    assert ScanLeft(cs, q + 1, []) == ScanLeft(cs, q, ['>']);
  }

  /** Started there, ReverseCloseExpression is a scan of the text before it. */
  lemma ReverseAngleAt(lines: seq<string>, l: nat, p: nat, l': nat, q: nat)
    requires IsPlace(lines, l', q) && lines[l'][q] == '>' && !PlainLeft(lines[l'], q) && IsPlace(lines, l, p)
    ensures Offset(lines, l', q) <= |FlatCells(lines)|
    ensures ReverseAt(lines, l', q) == At(l, p) <==>
            ScanLeft(FlatCells(lines), Offset(lines, l', q), ['>']) == Stopped(Offset(lines, l, p))
  {
    ReverseFromAngle(lines, l', q);
    LeftAt(lines, l', q, ['>'], l, p);
  }

  lemma ReverseAngleOnCells(lines: seq<string>, l: nat, p: nat, l': nat, q: nat)
    requires IsPlace(lines, l', q) && lines[l'][q] == '>' && !PlainLeft(lines[l'], q) && IsPlace(lines, l, p)
    ensures ReverseAt(lines, l', q) == At(l, p) <==>
            OpensAngle(CellAt(lines[l], p)) && Offset(lines, l, p) < Offset(lines, l', q) &&
            CountsBack(FlatCells(lines), Offset(lines, l, p) + 1, Offset(lines, l', q), 1)
  {
    var cs, from, to := FlatCells(lines), Offset(lines, l, p), Offset(lines, l', q);
    OffsetChar(lines, l, p);
    FileSkipsHarmless(lines);
    ReverseAngleAt(lines, l, p, l', q);
    assert Angles(1, '>') == ['>'];
    CountBackExact(cs, to, 1, from);
  }

  /**
    From a > that is no part of -> or of a spaced >=, and not after the word operator,
    ReverseCloseExpression ends at a place exactly when a < stands there that is not the
    second one of <<, the text between is balanced in the three kinds of bracket, and the
    count of template brackets outside them, one at first, first reaches zero with that <.
   */
  lemma ReverseAngleExact(lines: seq<string>, l: nat, p: nat, l': nat, q: nat)
    requires IsPlace(lines, l', q) && lines[l'][q] == '>' && !PassedLeft(lines[l'], q) && IsPlace(lines, l, p)
    ensures ReverseAt(lines, l', q) == At(l, p) <==>
            && lines[l][p] == '<' && !AfterLess(lines[l], p) && Offset(lines, l, p) < Offset(lines, l', q)
            && CountsBack(TextCells(lines), Offset(lines, l, p) + 1, Offset(lines, l', q), 1)
  {
    TestsExactly(lines[l'], q);
    TestsExactly(lines[l], p);
    CellsAreText(lines);
    ReverseAngleOnCells(lines, l, p, l', q);
  }

  // ---------- a > that does not go onto the stack

  /** A bracket that the scan to the left pushes. */
  predicate PushedLeft(c: Cell) {
    IsClose(c.ch) || (c.ch == '>' && !c.plainLeft)
  }

  /** With nothing on the stack, a scan passes on to the next such bracket o, or comes to nothing. */
  lemma {:induction false} EmptyStackSkipsLeft(cs: seq<Cell>, i: nat) returns (o: int)
    requires i <= |cs|
    ensures -1 <= o < i
    ensures if o == -1 then ScanLeft(cs, i, []) == Dead || ScanLeft(cs, i, []) == Open([])
            else PushedLeft(cs[o]) && ScanLeft(cs, i, []) == ScanLeft(cs, o, [cs[o].ch])
    decreases i
  {
    o := -1;
    if i > 0 {
      var c := cs[i - 1];
      assert [] + [c.ch] == [c.ch] && Strip([], '>') == [];
      if PushedLeft(c) {
        o := i - 1;
      } else if StepLeft(c, []).Go? {
        o := EmptyStackSkipsLeft(cs, NextLeft(cs, i));
      }
    }
  }

  /**
    From a > that is part of -> or of a spaced >=, or stands after the word operator,
    ReverseCloseExpression answers as it does for an earlier closing bracket of the line,
    or finds nothing.
   */
  lemma PassedAnswersForAnother(lines: seq<string>, l: nat, q: nat) returns (o: int)
    requires IsPlace(lines, l, q) && lines[l][q] == '>' && PassedLeft(lines[l], q)
    ensures -1 <= o < q
    ensures o == -1 ==> ReverseAt(lines, l, q) == Nowhere
    ensures o >= 0 ==> Taken(lines[l], o) && ReverseAt(lines, l, q) == ReverseAt(lines, l, o)
  {
    var line, rows := lines[l], CellLines(lines);
    o := PassedOnLine(line, q);
    if o >= 0 {
      SameOnLine(rows, l, q + 1, [], o, [line[o]]);
      ReverseFromTaken(lines, l, o);
    } else {
      NothingOnLine(rows, l, q + 1);
    }
  }

  /** A closing bracket that ReverseCloseExpression takes as one. */
  ghost predicate Taken(line: string, o: nat)
    requires o < |line|
  {
    IsClose(line[o]) || (line[o] == '>' && !PassedLeft(line, o))
  }

  lemma ReverseFromTaken(lines: seq<string>, l: nat, o: nat)
    requires IsPlace(lines, l, o) && Taken(lines[l], o)
    ensures ReverseAt(lines, l, o) == LeftFrom(CellLines(lines), l, o, [lines[l][o]])
  {
    TestsExactly(lines[l], o);
    if IsClose(lines[l][o]) {
      ReverseFromPushed(lines, l, o);
    } else {
      ReverseFromAngle(lines, l, o);
    }
  }

  lemma {:induction false} NothingOnLine(rows: seq<seq<Cell>>, l: nat, i: nat)
    requires l < |rows| && i <= |rows[l]|
    requires ScanLeft(rows[l], i, []) == Dead || ScanLeft(rows[l], i, []) == Open([])
    ensures LeftFrom(rows, l, i, []) == Nowhere
  {
  }

  lemma PassedOnLine(line: string, q: nat) returns (o: int)
    requires q < |line| && line[q] == '>' && PassedLeft(line, q)
    ensures -1 <= o < q
    ensures var cs := LineCells(line);
            if o == -1 then ScanLeft(cs, q + 1, []) == Dead || ScanLeft(cs, q + 1, []) == Open([])
            else Taken(line, o) && ScanLeft(cs, q + 1, []) == ScanLeft(cs, o, [line[o]])
  {
    var cs := LineCells(line);
    TestsExactly(line, q);
    assert cs[q] == CellAt(line, q);
    assert StepLeft(cs[q], []) == Go([]);
    o := EmptyStackSkipsLeft(cs, NextLeft(cs, q + 1));
    if o >= 0 {
      assert cs[o] == CellAt(line, o);
      TestsExactly(line, o);
    }
  }

  lemma {:induction false} SameOnLine(rows: seq<seq<Cell>>, l: nat, i: nat, st: seq<char>, j: nat, st': seq<char>)
    requires l < |rows| && i <= |rows[l]| && j <= |rows[l]|
    requires ScanLeft(rows[l], i, st) == ScanLeft(rows[l], j, st')
    ensures LeftFrom(rows, l, i, st) == LeftFrom(rows, l, j, st')
  {
  }
}
