/**
  What the linter's bracket finders compute: on the text of the whole file they find
  exactly the matching bracket of plain bracket matching, so that each undoes the other.
 */
module FilePairs {
  import opened Brackets
  import opened FileText
  import opened LineScan

  // ---------- the cells of the file

  ghost function Chars(cs: seq<Cell>): (t: string)
    ensures |t| == |cs|
  {
    seq(|cs|, i requires 0 <= i < |cs| => cs[i].ch)
  }

  ghost function FlatCells(lines: seq<string>): seq<Cell> {
    Concat(CellLines(lines))
  }

  lemma {:induction false} FlatChars(lines: seq<string>)
    ensures Chars(FlatCells(lines)) == Flat(lines)
  {
    if lines == [] {
    } else {
      FlatChars(lines[1..]);
      assert CellLines(lines)[1..] == CellLines(lines[1..]);
      var head, tail := LineCells(lines[0]), FlatCells(lines[1..]);
      assert FlatCells(lines) == head + tail;
      assert Chars(head + tail) == Chars(head) + Chars(tail);
      assert Chars(head) == lines[0];
    }
  }

  /** The cells of the file around those of line l. */
  lemma FlatSplit(lines: seq<string>, l: nat)
    requires l < |lines|
    ensures FlatCells(lines) == FlatCells(lines[..l]) + LineCells(lines[l]) + FlatCells(lines[l + 1..])
    ensures |FlatCells(lines[..l])| == Offset(lines, l, 0)
    ensures Flat(lines) == Flat(lines[..l]) + lines[l] + Flat(lines[l + 1..])
  {
    ConcatSplit(CellLines(lines), l);
    ConcatSplit(lines, l);
    assert CellLines(lines)[..l] == CellLines(lines[..l]);
    assert CellLines(lines)[l + 1..] == CellLines(lines[l + 1..]);
    FlatChars(lines[..l]);
  }

  lemma OffsetChar(lines: seq<string>, l: nat, i: nat)
    requires IsPlace(lines, l, i)
    ensures Offset(lines, l, i) < |Flat(lines)| && Flat(lines)[Offset(lines, l, i)] == lines[l][i]
    ensures |FlatCells(lines)| == |Flat(lines)| && FlatCells(lines)[Offset(lines, l, i)] == CellAt(lines[l], i)
  {
    FlatSplit(lines, l);
    FlatChars(lines);
  }

  // ---------- a scan of a line is part of a scan of the file

  /** The stretch cs stands in all from off on. */
  ghost predicate Within(all: seq<Cell>, off: nat, cs: seq<Cell>) {
    off + |cs| <= |all| && forall k | 0 <= k < |cs| :: all[off + k] == cs[k]
  }

  lemma {:induction false} RightEmbedded(all: seq<Cell>, off: nat, cs: seq<Cell>, i: nat, st: seq<char>)
    requires Within(all, off, cs) && i <= |cs|
    ensures ScanRight(all, off + i, st) ==
            match ScanRight(cs, i, st)
            case Stopped(k) => Stopped(off + k)
            case Dead => Dead
            case Open(s) => ScanRight(all, off + |cs|, s)
    decreases |cs| - i
  {
    if i < |cs| {
      var step := StepRight(cs[i], st);
      if step.Go? {
        RightEmbedded(all, off, cs, i + 1, step.stack);
      }
    }
  }

  /** The scan to the left does not skip out of any row. */
  ghost predicate NoSkips(rows: seq<seq<Cell>>) {
    forall l: nat | l < |rows| :: RowNoSkip(rows, l)
  }

  ghost predicate RowNoSkip(rows: seq<seq<Cell>>, l: nat)
    requires l < |rows|
  {
    NoSkipAtStart(rows[l])
  }

  /** The scan to the left does not skip out of the stretch. */
  ghost predicate NoSkipAtStart(cs: seq<Cell>) {
    cs != [] ==> !Skips(cs[0])
  }

  lemma {:induction false} LeftEmbedded(all: seq<Cell>, off: nat, cs: seq<Cell>, i: nat, st: seq<char>)
    requires Within(all, off, cs) && i <= |cs|
    requires NoSkipAtStart(cs)
    ensures ScanLeft(all, off + i, st) ==
            match ScanLeft(cs, i, st)
            case Stopped(k) => Stopped(off + k)
            case Dead => Dead
            case Open(s) => ScanLeft(all, off, s)
    decreases i
  {
    if i > 0 {
      assert all[off + (i - 1)] == cs[i - 1];
      var step := StepLeft(cs[i - 1], st);
      if step.Go? {
        assert NextLeft(all, off + i) == off + NextLeft(cs, i);
        LeftEmbedded(all, off, cs, NextLeft(cs, i), step.stack);
      }
    }
  }

  lemma {:induction false} RightStaysNonempty(cs: seq<Cell>, i: nat, st: seq<char>)
    requires i <= |cs| && st != []
    ensures ScanRight(cs, i, st).Open? ==> ScanRight(cs, i, st).stack != []
    decreases |cs| - i
  {
    if i < |cs| && StepRight(cs[i], st).Go? {
      RightStaysNonempty(cs, i + 1, StepRight(cs[i], st).stack);
    }
  }

  lemma {:induction false} LeftStaysNonempty(cs: seq<Cell>, i: nat, st: seq<char>)
    requires i <= |cs| && st != []
    ensures ScanLeft(cs, i, st).Open? ==> ScanLeft(cs, i, st).stack != []
    decreases i
  {
    if i > 0 && StepLeft(cs[i - 1], st).Go? {
      LeftStaysNonempty(cs, NextLeft(cs, i), StepLeft(cs[i - 1], st).stack);
    }
  }

  ghost function AsScan(r: Stretch): Scan {
    if r.Stopped? then Found(r.pos) else NotFound
  }

  /** The place of a result in the text of the file. */
  ghost function OnText(lines: seq<string>, r: Place): Scan
    requires r.At? ==> IsPlace(lines, r.line, r.pos)
  {
    match r
    case At(l, k) => Found(Offset(lines, l, k))
    case Nowhere => NotFound
  }

  /** The cells all are those of the rows in turn, row l from start[l] on. */
  ghost predicate Laid(rows: seq<seq<Cell>>, all: seq<Cell>, start: seq<nat>) {
    && |start| == |rows| + 1 && start[0] == 0 && start[|rows|] == |all|
    && (forall l: nat | l < |rows| :: RowLaid(rows, all, start, l))
  }

  ghost predicate RowLaid(rows: seq<seq<Cell>>, all: seq<Cell>, start: seq<nat>, l: nat)
    requires l < |rows| && |start| == |rows| + 1
  {
    start[l + 1] == start[l] + |rows[l]| && Within(all, start[l], rows[l])
  }

  ghost function Started(start: seq<nat>, r: Place): Scan
    requires r.At? ==> r.line < |start|
  {
    if r.At? then Found(start[r.line] + r.pos) else NotFound
  }

  lemma {:induction false} RightOnCells(rows: seq<seq<Cell>>, all: seq<Cell>, start: seq<nat>, l: nat, i: nat,
                                        st: seq<char>)
    requires Laid(rows, all, start) && l < |rows| && i <= |rows[l]| && st != []
    ensures start[l] + i <= |all|
    ensures Started(start, RightFrom(rows, l, i, st)) == AsScan(ScanRight(all, start[l] + i, st))
    decreases |rows| - l
  {
    var row, off := rows[l], start[l];
    assert RowLaid(rows, all, start, l);
    RightEmbedded(all, off, row, i, st);
    RightStaysNonempty(row, i, st);
    var r, place, whole := ScanRight(row, i, st), RightFrom(rows, l, i, st), ScanRight(all, off + i, st);
    match r {
      case Stopped(k) =>
        assert place == At(l, k) && whole == Stopped(off + k);
      case Dead =>
        assert place == Nowhere && whole == Dead;
      case Open(s) =>
        assert whole == ScanRight(all, off + |row|, s);
        if l + 1 < |rows| {
          assert place == RightFrom(rows, l + 1, 0, s);
          RightOnCells(rows, all, start, l + 1, 0, s);
        }
    }
  }

  lemma {:induction false} LeftOnCells(rows: seq<seq<Cell>>, all: seq<Cell>, start: seq<nat>, l: nat, i: nat,
                                       st: seq<char>)
    requires Laid(rows, all, start) && l < |rows| && i <= |rows[l]| && st != []
    requires NoSkips(rows)
    ensures start[l] + i <= |all|
    ensures Started(start, LeftFrom(rows, l, i, st)) == AsScan(ScanLeft(all, start[l] + i, st))
    decreases l
  {
    LeftOnRow(rows, all, start, l, i, st);
    var r := ScanLeft(rows[l], i, st);
    if r.Open? && l > 0 {
      assert RowLaid(rows, all, start, l - 1);
      LeftOnCells(rows, all, start, l - 1, |rows[l - 1]|, r.stack);
    }
  }

  lemma {:induction false} LeftOnRow(rows: seq<seq<Cell>>, all: seq<Cell>, start: seq<nat>, l: nat, i: nat,
                                     st: seq<char>)
    requires Laid(rows, all, start) && l < |rows| && i <= |rows[l]| && st != [] && NoSkips(rows)
    ensures start[l] + i <= |all|
    ensures ScanLeft(rows[l], i, st).Open? ==> ScanLeft(rows[l], i, st).stack != []
    ensures ScanLeft(all, start[l] + i, st) ==
            match ScanLeft(rows[l], i, st)
            case Stopped(k) => Stopped(start[l] + k)
            case Dead => Dead
            case Open(s) => ScanLeft(all, start[l], s)
  {
    assert RowLaid(rows, all, start, l) && RowNoSkip(rows, l);
    LeftEmbedded(all, start[l], rows[l], i, st);
    LeftStaysNonempty(rows[l], i, st);
  }

  lemma ConcatLaid(rows: seq<seq<Cell>>) returns (start: seq<nat>)
    requires rows != []
    ensures Laid(rows, Concat(rows), start)
    ensures forall l | 0 <= l < |rows| :: start[l] == Offset(rows, l, 0)
  {
    var n, all := |rows|, Concat(rows);
    start := seq(n, l requires 0 <= l < n => Offset(rows, l, 0)) + [|all|];
    forall l: nat | l < n
      ensures RowLaid(rows, all, start, l)
    {
      ConcatSplit(rows, l);
      if l + 1 < n {
        OffsetNextLine(rows, l);
      } else {
        assert rows[l + 1..] == [];
      }
    }
    assert rows[..0] == [];
  }

  lemma SameOffset(lines: seq<string>, l: nat, i: nat)
    requires l < |lines|
    ensures Offset(CellLines(lines), l, i) == Offset(lines, l, i)
  {
    FlatChars(lines[..l]);
    assert CellLines(lines)[..l] == CellLines(lines[..l]);
  }

  lemma RightOnText(lines: seq<string>, l: nat, i: nat, st: seq<char>)
    requires l < |lines| && i <= |lines[l]| && st != []
    ensures Offset(lines, l, i) <= |FlatCells(lines)|
    ensures OnText(lines, RightFrom(CellLines(lines), l, i, st)) ==
            AsScan(ScanRight(FlatCells(lines), Offset(lines, l, i), st))
  {
    var rows := CellLines(lines);
    var start := ConcatLaid(rows);
    RightOnCells(rows, Concat(rows), start, l, i, st);
    SameOffset(lines, l, i);
    var r := RightFrom(rows, l, i, st);
    if r.At? {
      SameOffset(lines, r.line, r.pos);
    }
  }

  lemma LeftOnText(lines: seq<string>, l: nat, i: nat, st: seq<char>)
    requires l < |lines| && i <= |lines[l]| && st != []
    ensures Offset(lines, l, i) <= |FlatCells(lines)|
    ensures OnText(lines, LeftFrom(CellLines(lines), l, i, st)) ==
            AsScan(ScanLeft(FlatCells(lines), Offset(lines, l, i), st))
  {
    var rows := CellLines(lines);
    forall k: nat | k < |rows|
      ensures RowNoSkip(rows, k)
    {
      LineSkipsHarmless(lines[k]);
    }
    var start := ConcatLaid(rows);
    LeftOnCells(rows, Concat(rows), start, l, i, st);
    SameOffset(lines, l, i);
    var r := LeftFrom(rows, l, i, st);
    if r.At? {
      SameOffset(lines, r.line, r.pos);
    }
  }

  /** The scan of the lines ends at a place exactly when the scan of the text ends there. */
  lemma RightAt(lines: seq<string>, l: nat, i: nat, st: seq<char>, l': nat, q: nat)
    requires l < |lines| && i <= |lines[l]| && st != [] && IsPlace(lines, l', q)
    ensures Offset(lines, l, i) <= |FlatCells(lines)|
    ensures RightFrom(CellLines(lines), l, i, st) == At(l', q) <==>
            ScanRight(FlatCells(lines), Offset(lines, l, i), st) == Stopped(Offset(lines, l', q))
  {
    RightOnText(lines, l, i, st);
    var r := RightFrom(CellLines(lines), l, i, st);
    if r.At? {
      OffsetInjective(lines, r.line, r.pos, l', q);
    }
  }

  lemma LeftAt(lines: seq<string>, l: nat, i: nat, st: seq<char>, l': nat, p: nat)
    requires l < |lines| && i <= |lines[l]| && st != [] && IsPlace(lines, l', p)
    ensures Offset(lines, l, i) <= |FlatCells(lines)|
    ensures LeftFrom(CellLines(lines), l, i, st) == At(l', p) <==>
            ScanLeft(FlatCells(lines), Offset(lines, l, i), st) == Stopped(Offset(lines, l', p))
  {
    LeftOnText(lines, l, i, st);
    var r := LeftFrom(CellLines(lines), l, i, st);
    if r.At? {
      OffsetInjective(lines, r.line, r.pos, l', p);
    }
  }

  // ---------- without the tentative angle brackets, the scans are plain scans

  /** The stack without its tentative brackets a. */
  ghost function Drop(st: seq<char>, a: char): (s: seq<char>) {
    if st == [] then []
    else if Top(st) == a then Drop(Pop(st), a)
    else Drop(Pop(st), a) + [Top(st)]
  }

  lemma DropPush(st: seq<char>, c: char, a: char)
    ensures Drop(st + [c], a) == if c == a then Drop(st, a) else Drop(st, a) + [c]
  {
    assert Pop(st + [c]) == st;
  }

  lemma {:induction false} DropStrip(st: seq<char>, a: char)
    ensures Drop(Strip(st, a), a) == Drop(st, a)
    ensures st != [] && st[0] != a ==> Strip(st, a) != [] && Strip(st, a)[0] == st[0]
  {
    if st != [] && Top(st) == a {
      DropStrip(Pop(st), a);
    }
  }

  lemma {:induction false} DropNonempty(st: seq<char>, a: char)
    requires st != [] && st[0] != a
    ensures Drop(st, a) != []
  {
    if Top(st) == a {
      DropNonempty(Pop(st), a);
    }
  }

  /** On a stripped stack, top and rest are those of the plain stack. */
  lemma DropTop(st: seq<char>, a: char)
    requires st != [] && st[0] != a && Top(st) != a
    ensures Drop(st, a) != [] && Top(Drop(st, a)) == Top(st) && Pop(Drop(st, a)) == Drop(Pop(st), a)
    ensures |Drop(st, a)| == 1 <==> |st| == 1
  {
    assert Pop(Drop(Pop(st), a) + [Top(st)]) == Drop(Pop(st), a);
    if |st| > 1 {
      DropNonempty(Pop(st), a);
    }
  }

  /** A character that is no bracket, from a stack whose bottom is a real bracket. */
  lemma StepRightOther(c: Cell, st: seq<char>)
    requires st != [] && st[0] != '<' && !IsBracket(c.ch)
    ensures var step := StepRight(c, st);
            step.Go? && step.stack != [] && step.stack[0] != '<' && Drop(step.stack, '<') == Drop(st, '<')
  {
    if c.ch == '<' {
      DropPush(st, '<', '<');
    } else if c.ch == ';' {
      DropStrip(st, '<');
    }
  }

  lemma StepRightClose(c: Cell, st: seq<char>)
    requires st != [] && st[0] != '<' && IsClose(c.ch)
    ensures var step, d := StepRight(c, st), Drop(st, '<');
            && d != []
            && (step.Go? ==> step.stack != [] && step.stack[0] != '<')
            && if !Pairs(Top(d), c.ch) then step.Fail?
               else if |d| == 1 then step.Stop?
               else step.Go? && Drop(step.stack, '<') == Pop(d)
  {
    DropStrip(st, '<');
    DropTop(Strip(st, '<'), '<');
  }

  lemma StepLeftOther(c: Cell, st: seq<char>)
    requires st != [] && st[0] != '>' && !IsBracket(c.ch)
    ensures var step := StepLeft(c, st);
            step.Go? && step.stack != [] && step.stack[0] != '>' && Drop(step.stack, '>') == Drop(st, '>')
  {
    if c.ch == '>' {
      DropPush(st, '>', '>');
    } else if c.ch == ';' {
      DropStrip(st, '>');
    }
  }

  lemma StepLeftOpen(c: Cell, st: seq<char>)
    requires st != [] && st[0] != '>' && IsOpen(c.ch)
    ensures var step, d := StepLeft(c, st), Drop(st, '>');
            && d != []
            && (step.Go? ==> step.stack != [] && step.stack[0] != '>')
            && if !Pairs(c.ch, Top(d)) then step.Fail?
               else if |d| == 1 then step.Stop?
               else step.Go? && Drop(step.stack, '>') == Pop(d)
  {
    DropStrip(st, '>');
    DropTop(Strip(st, '>'), '>');
  }

  /** The tentative brackets and the semicolon rule never change the scan to the right. */
  lemma {:induction false} RightRefines(cs: seq<Cell>, i: nat, st: seq<char>)
    requires i <= |cs| && st != [] && st[0] != '<'
    ensures Drop(st, '<') != []
    ensures AsScan(ScanRight(cs, i, st)) == Forward(Chars(cs), i, Drop(st, '<'))
    decreases |cs| - i
  {
    DropNonempty(st, '<');
    if i < |cs| {
      var c := cs[i];
      if IsOpen(c.ch) {
        DropPush(st, c.ch, '<');
      } else if IsClose(c.ch) {
        StepRightClose(c, st);
      } else {
        StepRightOther(c, st);
      }
      var step := StepRight(cs[i], st);
      if step.Go? {
        RightRefines(cs, i + 1, step.stack);
      }
    }
  }

  /** Every character that the scan to the left passes over unread is no bracket. */
  ghost predicate SkipsHarmless(cs: seq<Cell>) {
    forall i | 0 < i < |cs| :: SkipHarmless(cs, i)
  }

  ghost predicate SkipHarmless(cs: seq<Cell>, i: nat)
    requires 0 < i < |cs|
  {
    Skips(cs[i]) ==> !IsBracket(cs[i - 1].ch)
  }

  lemma LeftPassesOver(cs: seq<Cell>, i: nat, d: seq<char>)
    requires SkipsHarmless(cs) && 0 < i <= |cs| && d != [] && !IsBracket(cs[i - 1].ch)
    ensures Backward(Chars(cs), i, d) == Backward(Chars(cs), NextLeft(cs, i), d)
  {
    var t := Chars(cs);
    assert Backward(t, i, d) == Backward(t, i - 1, d);
    if NextLeft(cs, i) == i - 2 {
      assert SkipHarmless(cs, i - 1);
      assert !IsBracket(cs[i - 2].ch);
      assert Backward(t, i - 1, d) == Backward(t, i - 2, d);
    }
  }

  /** Nor do they change the scan to the left, in spite of the characters it passes over. */
  lemma {:induction false} LeftRefines(cs: seq<Cell>, i: nat, st: seq<char>)
    requires SkipsHarmless(cs) && i <= |cs| && st != [] && st[0] != '>'
    ensures Drop(st, '>') != []
    ensures AsScan(ScanLeft(cs, i, st)) == Backward(Chars(cs), i, Drop(st, '>'))
    decreases i
  {
    DropNonempty(st, '>');
    if i > 0 {
      var c, step, d := cs[i - 1], StepLeft(cs[i - 1], st), Drop(st, '>');
      if IsClose(c.ch) {
        DropPush(st, c.ch, '>');
        LeftRefines(cs, i - 1, step.stack);
      } else if IsOpen(c.ch) {
        StepLeftOpen(c, st);
        if step.Go? {
          LeftRefines(cs, i - 1, step.stack);
        }
      } else {
        StepLeftOther(c, st);
        LeftPassesOver(cs, i, d);
        LeftRefines(cs, NextLeft(cs, i), step.stack);
      }
    }
  }

  lemma SpaceOrOperatorBefore(line: string, i: nat)
    requires i <= |line| && OperatorBefore(line, i)
    ensures i > 0 && (IsSpace(line[i - 1]) || line[i - 1] == 'r')
  {
    var k := TrimRight(line, i);
    if k == i {
      assert line[i - 1] == line[k - 8..k][7] == 'r';
    }
  }

  lemma LineSkipsHarmless(line: string)
    ensures SkipsHarmless(LineCells(line))
    ensures line != [] ==> !Skips(LineCells(line)[0])
  {
    var cs := LineCells(line);
    forall i | 0 < i < |cs|
      ensures SkipHarmless(cs, i)
    {
      assert cs[i - 1].ch == line[i - 1];
      if OperatorBefore(line, i) {
        SpaceOrOperatorBefore(line, i);
      }
    }
  }

  lemma {:induction false} FileSkipsHarmless(lines: seq<string>)
    ensures SkipsHarmless(FlatCells(lines))
    ensures FlatCells(lines) != [] ==> !Skips(FlatCells(lines)[0])
  {
    if lines != [] {
      LineSkipsHarmless(lines[0]);
      FileSkipsHarmless(lines[1..]);
      assert CellLines(lines)[1..] == CellLines(lines[1..]);
      var head, tail := LineCells(lines[0]), FlatCells(lines[1..]);
      assert FlatCells(lines) == head + tail;
      forall i | 0 < i < |head + tail|
        ensures SkipHarmless(head + tail, i)
      {
        if i < |head| {
          assert SkipHarmless(head, i);
        } else {
          assert tail[i - |head|] == (head + tail)[i];
          if i > |head| {
            assert SkipHarmless(tail, i - |head|);
          }
        }
      }
    }
  }

  // ---------- the finders find exactly the matching bracket

  /** The opener goes onto the stack unless it is a < after another < or the word operator. */
  predicate Pushed(line: string, p: nat)
    requires p < |line|
  {
    || IsOpen(line[p])
    || (line[p] == '<' && !AfterAngle(line, p) && !AfterOperator(line, p) && !ShiftOrAtMost(line, p))
  }

  lemma CloseFromPushed(lines: seq<string>, l: nat, p: nat)
    requires IsPlace(lines, l, p) && Pushed(lines[l], p)
    ensures CloseAt(lines, l, p) == RightFrom(CellLines(lines), l, p + 1, [lines[l][p]])
  {
    var c, cs := lines[l][p], LineCells(lines[l]);
    assert [] + [c] == [c];
    assert cs[p] == CellAt(lines[l], p);
    assert StepRight(cs[p], []) == Go([c]);
    assert ScanRight(cs, p, []) == ScanRight(cs, p + 1, [c]);
  }

  lemma RightIsForward(lines: seq<string>, l: nat, i: nat, c: char)
    requires l < |lines| && i <= |lines[l]| && IsOpen(c)
    ensures Offset(lines, l, i) <= |Flat(lines)|
    ensures OnText(lines, RightFrom(CellLines(lines), l, i, [c])) == Forward(Flat(lines), Offset(lines, l, i), [c])
  {
    FlatChars(lines);
    RightOnText(lines, l, i, [c]);
    RightRefines(FlatCells(lines), Offset(lines, l, i), [c]);
    DropPush([], c, '<');
  }

  lemma LeftIsBackward(lines: seq<string>, l: nat, i: nat, c: char)
    requires l < |lines| && i <= |lines[l]| && IsClose(c)
    ensures Offset(lines, l, i) <= |Flat(lines)|
    ensures OnText(lines, LeftFrom(CellLines(lines), l, i, [c])) == Backward(Flat(lines), Offset(lines, l, i), [c])
  {
    FlatChars(lines);
    FileSkipsHarmless(lines);
    LeftOnText(lines, l, i, [c]);
    LeftRefines(FlatCells(lines), Offset(lines, l, i), [c]);
    DropPush([], c, '>');
  }

  lemma CloseOnText(lines: seq<string>, l: nat, p: nat)
    requires IsPlace(lines, l, p) && IsOpen(lines[l][p])
    ensures Offset(lines, l, p) < |Flat(lines)|
    ensures OnText(lines, CloseAt(lines, l, p)) == Forward(Flat(lines), Offset(lines, l, p) + 1, [lines[l][p]])
  {
    OffsetChar(lines, l, p);
    CloseFromPushed(lines, l, p);
    RightIsForward(lines, l, p + 1, lines[l][p]);
  }

  lemma ReverseFromPushed(lines: seq<string>, l: nat, q: nat)
    requires IsPlace(lines, l, q) && IsClose(lines[l][q])
    ensures ReverseAt(lines, l, q) == LeftFrom(CellLines(lines), l, q, [lines[l][q]])
  {
    var c, cs := lines[l][q], LineCells(lines[l]);
    assert [] + [c] == [c];
    assert cs[q] == CellAt(lines[l], q);
    assert StepLeft(cs[q], []) == Go([c]);
    assert ScanLeft(cs, q + 1, []) == ScanLeft(cs, q, [c]);
  }

  lemma ReverseOnText(lines: seq<string>, l: nat, q: nat)
    requires IsPlace(lines, l, q) && IsClose(lines[l][q])
    ensures Offset(lines, l, q) < |Flat(lines)|
    ensures OnText(lines, ReverseAt(lines, l, q)) == Backward(Flat(lines), Offset(lines, l, q), [lines[l][q]])
  {
    OffsetChar(lines, l, q);
    ReverseFromPushed(lines, l, q);
    LeftIsBackward(lines, l, q, lines[l][q]);
  }

  /** The brackets at two places of the file match in its text. */
  ghost predicate PlacesMatch(lines: seq<string>, l: nat, p: nat, l': nat, q: nat)
    requires IsPlace(lines, l, p) && IsPlace(lines, l', q)
  {
    Matching(Flat(lines), Offset(lines, l, p), Offset(lines, l', q))
  }

  /** From ( [ or {, CloseExpression ends at a place exactly when that place matches. */
  lemma CloseExact(lines: seq<string>, l: nat, p: nat, l': nat, q: nat)
    requires IsPlace(lines, l, p) && IsOpen(lines[l][p]) && IsPlace(lines, l', q)
    ensures CloseAt(lines, l, p) == At(l', q) <==> PlacesMatch(lines, l, p, l', q)
  {
    CloseOnText(lines, l, p);
    OffsetChar(lines, l, p);
    ForwardExact(Flat(lines), Offset(lines, l, p), Offset(lines, l', q));
    var r := CloseAt(lines, l, p);
    if r.At? {
      OffsetInjective(lines, r.line, r.pos, l', q);
    }
  }

  /** From ) ] or }, ReverseCloseExpression ends at a place exactly when that place matches. */
  lemma ReverseExact(lines: seq<string>, l: nat, p: nat, l': nat, q: nat)
    requires IsPlace(lines, l, p) && IsPlace(lines, l', q) && IsClose(lines[l'][q])
    ensures ReverseAt(lines, l', q) == At(l, p) <==> PlacesMatch(lines, l, p, l', q)
  {
    ReverseOnText(lines, l', q);
    OffsetChar(lines, l', q);
    BackwardExact(Flat(lines), Offset(lines, l, p), Offset(lines, l', q));
    var r := ReverseAt(lines, l', q);
    if r.At? {
      OffsetInjective(lines, r.line, r.pos, l, p);
    }
  }

  /** CloseExpression fails on a bracket exactly when no place of the file matches it. */
  lemma CloseFailsExactly(lines: seq<string>, l: nat, p: nat)
    requires IsPlace(lines, l, p) && IsOpen(lines[l][p])
    ensures CloseAt(lines, l, p) == Nowhere <==>
            forall l': nat, q: nat | IsPlace(lines, l', q) :: !PlacesMatch(lines, l, p, l', q)
  {
    forall l': nat, q: nat | IsPlace(lines, l', q)
      ensures CloseAt(lines, l, p) == At(l', q) <==> PlacesMatch(lines, l, p, l', q)
    {
      CloseExact(lines, l, p, l', q);
    }
  }

  /** From a bracket of the three kinds, each finder undoes the other, across lines. */
  lemma RoundTrip(lines: seq<string>, l: nat, p: nat, l': nat, q: nat)
    requires IsPlace(lines, l, p) && IsPlace(lines, l', q)
    ensures IsOpen(lines[l][p]) && CloseAt(lines, l, p) == At(l', q) <==>
            IsClose(lines[l'][q]) && ReverseAt(lines, l', q) == At(l, p)
  {
    OffsetChar(lines, l, p);
    OffsetChar(lines, l', q);
    if IsOpen(lines[l][p]) {
      CloseExact(lines, l, p, l', q);
    }
    if IsClose(lines[l'][q]) {
      ReverseExact(lines, l, p, l', q);
    }
  }
}
