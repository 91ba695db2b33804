/**
  The linter's two bracket finders over the cleansed lines of a C++ file. Besides the
  three kinds of bracket they track < and >, which may be template brackets or operators,
  on a tentative stack.
 */
module LineScan {
  import opened Brackets
  import opened FileText

  // ---------- the tests on a line that decide what < and > mean

  predicate IsSpace(c: char) {
    c == ' ' || 9 <= c as int <= 13
  }

  predicate IsWord(c: char) {
    'a' <= c <= 'z' || 'A' <= c <= 'Z' || '0' <= c <= '9' || c == '_'
  }

  /** Where the text line[..i] ends once white space is dropped from its end. */
  function TrimRight(line: string, i: nat): (k: nat)
    requires i <= |line|
    ensures k <= i
  {
    if i > 0 && IsSpace(line[i - 1]) then TrimRight(line, i - 1) else i
  }

  /** The text line[..i] ends in the word operator, up to white space. */
  predicate OperatorBefore(line: string, i: nat)
    requires i <= |line|
  {
    var k := TrimRight(line, i);
    && 8 <= k
    && line[k - 8..k] == "operator"
    && (k == 8 || !IsWord(line[k - 9]))
  }

  /** The line reads a >= between two spaces from k on. */
  predicate SpacedAtLeast(line: string, k: nat) {
    k + 3 < |line| && IsSpace(line[k]) && line[k + 1] == '>' && line[k + 2] == '=' && IsSpace(line[k + 3])
  }

  /** A character together with what the finders ask about the line before and after it. */
  datatype Cell = Cell(
    ch: char,
    afterAngle: bool,      // the character before it is <
    afterOperator: bool,   // the word operator comes before it
    plainRight: bool,      // as a > it is passed over by the scan to the right
    plainLeft: bool)       // as a > it is passed over by the scan to the left

  predicate AfterAngle(line: string, i: nat)
    requires i < |line|
  {
    i > 0 && line[i - 1] == '<'
  }

  predicate AfterOperator(line: string, i: nat)
    requires i < |line|
  {
    i > 0 && OperatorBefore(line, i)
  }

  predicate PlainRight(line: string, i: nat)
    requires i < |line|
  {
    i > 0 && (line[i - 1] == '-' || OperatorBefore(line, i - 1))
  }

  predicate PlainLeft(line: string, i: nat)
    requires i < |line|
  {
    i > 0 && (line[i - 1] == '-' || SpacedAtLeast(line, i - 1) || OperatorBefore(line, i))
  }

  function CellAt(line: string, i: nat): Cell
    requires i < |line|
  {
    Cell(line[i], AfterAngle(line, i), AfterOperator(line, i), PlainRight(line, i), PlainLeft(line, i))
  }

  function LineCells(line: string): (cs: seq<Cell>)
    ensures |cs| == |line| && forall i | 0 <= i < |cs| :: cs[i] == CellAt(line, i)
  {
    seq(|line|, i requires 0 <= i < |line| => CellAt(line, i))
  }

  function CellLines(lines: seq<string>): (rows: seq<seq<Cell>>)
    ensures |rows| == |lines| && forall l | 0 <= l < |rows| :: rows[l] == LineCells(lines[l])
  {
    seq(|lines|, l requires 0 <= l < |lines| => LineCells(lines[l]))
  }

  // ---------- one character

  /** Drop the tentative brackets a on top of the stack. */
  function Strip(st: seq<char>, a: char): (s: seq<char>)
    ensures |s| <= |st|
    ensures s == [] || Top(s) != a
  {
    if st != [] && Top(st) == a then Strip(Pop(st), a) else st
  }

  datatype Step = Go(stack: seq<char>) | Stop | Fail

  function Popped(st: seq<char>, emptied: Step): Step
    requires st != []
  {
    if |st| == 1 then emptied else Go(Pop(st))
  }

  /** The character c to the right: go on with a new stack, end the expression, or give up. */
  function StepRight(c: Cell, st: seq<char>): Step {
    if IsOpen(c.ch) then Go(st + [c.ch])
    else if c.ch == '<' then
      if c.afterAngle then
        if st != [] && Top(st) == '<' then Popped(st, Fail) else Go(st)
      else if c.afterOperator then Go(st)
      else Go(st + ['<'])
    else if IsClose(c.ch) then
      var s := Strip(st, '<');
      if s == [] || !Pairs(Top(s), c.ch) then Fail else Popped(s, Stop)
    else if c.ch == '>' then
      if !c.plainRight && st != [] && Top(st) == '<' then Popped(st, Stop) else Go(st)
    else if c.ch == ';' then
      var s := Strip(st, '<');
      if s == [] then Fail else Go(s)
    else Go(st)
  }

  function StepLeft(c: Cell, st: seq<char>): Step {
    if IsClose(c.ch) then Go(st + [c.ch])
    else if c.ch == '>' then
      if c.plainLeft then Go(st) else Go(st + ['>'])
    else if c.ch == '<' then
      if !c.afterAngle && st != [] && Top(st) == '>' then Popped(st, Stop) else Go(st)
    else if IsOpen(c.ch) then
      var s := Strip(st, '>');
      if s == [] || !Pairs(c.ch, Top(s)) then Fail else Popped(s, Stop)
    else if c.ch == ';' then
      var s := Strip(st, '>');
      if s == [] then Fail else Go(s)
    else Go(st)
  }

  /** The scan to the left also passes over the character before this one. */
  predicate Skips(c: Cell) {
    (c.ch == '>' && c.plainLeft) || (c.ch == '<' && c.afterAngle)
  }

  // ---------- a stretch of characters

  datatype Stretch = Stopped(pos: nat) | Dead | Open(stack: seq<char>)

  function ScanRight(cs: seq<Cell>, i: nat, st: seq<char>): (r: Stretch)
    requires i <= |cs|
    ensures r.Stopped? ==> i <= r.pos < |cs|
    decreases |cs| - i
  {
    if i == |cs| then Open(st)
    else
      match StepRight(cs[i], st)
      case Go(s) => ScanRight(cs, i + 1, s)
      case Stop => Stopped(i)
      case Fail => Dead
  }

  function NextLeft(cs: seq<Cell>, i: nat): nat
    requires 0 < i <= |cs|
  {
    if i >= 2 && Skips(cs[i - 1]) then i - 2 else i - 1
  }

  /** The scan to the left of i. */
  function ScanLeft(cs: seq<Cell>, i: nat, st: seq<char>): (r: Stretch)
    requires i <= |cs|
    ensures r.Stopped? ==> r.pos < i
    decreases i
  {
    if i == 0 then Open(st)
    else
      match StepLeft(cs[i - 1], st)
      case Go(s) => ScanLeft(cs, NextLeft(cs, i), s)
      case Stop => Stopped(i - 1)
      case Fail => Dead
  }

  // ---------- the lines of a file

  datatype Place = At(line: nat, pos: nat) | Nowhere

  function RightFrom(rows: seq<seq<Cell>>, l: nat, i: nat, st: seq<char>): (r: Place)
    requires l < |rows| && i <= |rows[l]|
    ensures r.At? ==> IsPlace(rows, r.line, r.pos)
    decreases |rows| - l
  {
    match ScanRight(rows[l], i, st)
    case Stopped(k) => At(l, k)
    case Dead => Nowhere
    case Open(s) => if s == [] || l + 1 == |rows| then Nowhere else RightFrom(rows, l + 1, 0, s)
  }

  function LeftFrom(rows: seq<seq<Cell>>, l: nat, i: nat, st: seq<char>): (r: Place)
    requires l < |rows| && i <= |rows[l]|
    ensures r.At? ==> IsPlace(rows, r.line, r.pos)
    decreases l
  {
    match ScanLeft(rows[l], i, st)
    case Stopped(k) => At(l, k)
    case Dead => Nowhere
    case Open(s) => if s == [] || l == 0 then Nowhere else LeftFrom(rows, l - 1, |rows[l - 1]|, s)
  }

  /** The text from p on reads << or <=. */
  predicate ShiftOrAtMost(line: string, p: nat) {
    p + 1 < |line| && line[p] == '<' && (line[p + 1] == '<' || line[p + 1] == '=')
  }

  /** Where the bracket at a place is closed. */
  function CloseAt(lines: seq<string>, l: nat, p: nat): (r: Place)
    requires IsPlace(lines, l, p)
  {
    var c := lines[l][p];
    if !(IsOpen(c) || c == '<') || ShiftOrAtMost(lines[l], p) then Nowhere else RightFrom(CellLines(lines), l, p, [])
  }

  /** Where the bracket at a place is opened. */
  function ReverseAt(lines: seq<string>, l: nat, p: nat): (r: Place)
    requires IsPlace(lines, l, p)
  {
    var c := lines[l][p];
    if !(IsClose(c) || c == '>') then Nowhere else LeftFrom(CellLines(lines), l, p + 1, [])
  }

  // ---------- the finders, as they run

  datatype Rest = NoStack | Stack(stack: seq<char>)

  /** The loop that drops tentative brackets, which stands four times in the finders. */
  method StripStack(pending: seq<char>, a: char) returns (stack: seq<char>)
    ensures stack == Strip(pending, a)
  {
    stack := pending;
    while stack != [] && stack[|stack| - 1] == a
      invariant Strip(stack, a) == Strip(pending, a)
    {
      stack := stack[..|stack| - 1];
    }
  }

  /** The body of the loop to the right: the character at i, with the stack so far. */
  method ReadRight(line: string, i: nat, pending: seq<char>) returns (step: Step)
    requires i < |line|
    ensures step == StepRight(CellAt(line, i), pending)
  {
    var stack := pending;
    var ch := line[i];
    if IsOpen(ch) {
      stack := stack + [ch];
    } else if ch == '<' {
      if AfterAngle(line, i) {
        if stack != [] && stack[|stack| - 1] == '<' {
          stack := stack[..|stack| - 1];
          if stack == [] {
            return Fail;
          }
        }
      } else if AfterOperator(line, i) {
        return Go(stack);
      } else {
        stack := stack + ['<'];
      }
    } else if IsClose(ch) {
      stack := StripStack(stack, '<');
      if stack == [] {
        return Fail;
      }
      if Pairs(stack[|stack| - 1], ch) {
        stack := stack[..|stack| - 1];
        if stack == [] {
          return Stop;
        }
      } else {
        return Fail;
      }
    } else if ch == '>' {
      if PlainRight(line, i) {
        return Go(stack);
      }
      if stack != [] {
        if stack[|stack| - 1] == '<' {
          stack := stack[..|stack| - 1];
          if stack == [] {
            return Stop;
          }
        }
      }
    } else if ch == ';' {
      stack := StripStack(stack, '<');
      if stack == [] {
        return Fail;
      }
    }
    return Go(stack);
  }

  lemma {:induction false} ScanRightStep(line: string, cs: seq<Cell>, i: nat, st: seq<char>, step: Step)
    requires cs == LineCells(line) && i < |line| && step == StepRight(CellAt(line, i), st)
    ensures match step
            case Go(s) => ScanRight(cs, i, st) == ScanRight(cs, i + 1, s)
            case Stop => ScanRight(cs, i, st) == Stopped(i)
            case Fail => ScanRight(cs, i, st) == Dead
  {
    assert cs[i] == CellAt(line, i);
  }

  /** FindEndOfExpressionInLine. */
  method FindEndOfExpressionInLine(line: string, startpos: nat, pending: seq<char>) returns (end: int, rest: Rest)
    requires startpos <= |line|
    ensures match ScanRight(LineCells(line), startpos, pending)
            case Stopped(k) => end == k + 1 && rest == NoStack
            case Dead => end == -1 && rest == NoStack
            case Open(st) => end == -1 && rest == Stack(st)
  {
    ghost var cs := LineCells(line);
    ghost var goal := ScanRight(cs, startpos, pending);
    var stack := pending;
    for i := startpos to |line|
      invariant ScanRight(cs, i, stack) == goal
    {
      var step := ReadRight(line, i, stack);
      ScanRightStep(line, cs, i, stack, step);
      if step.Stop? {
        return i + 1, NoStack;
      } else if step.Fail? {
        return -1, NoStack;
      }
      stack := step.stack;
    }
    assert goal == Open(stack);
    return -1, Stack(stack);
  }

  /**
    The body of the loop to the left: the character at i, with the stack so far, and
    whether the character before it is passed over.
   */
  method ReadLeft(line: string, i: nat, pending: seq<char>) returns (step: Step, skip: bool)
    requires i < |line|
    ensures step == StepLeft(CellAt(line, i), pending)
    ensures skip <==> Skips(CellAt(line, i))
  {
    var stack := pending;
    skip := false;
    var ch := line[i];
    if IsClose(ch) {
      stack := stack + [ch];
    } else if ch == '>' {
      if PlainLeft(line, i) {
        skip := true;
      } else {
        stack := stack + ['>'];
      }
    } else if ch == '<' {
      if AfterAngle(line, i) {
        skip := true;
      } else {
        if stack != [] && stack[|stack| - 1] == '>' {
          stack := stack[..|stack| - 1];
          if stack == [] {
            return Stop, false;
          }
        }
      }
    } else if IsOpen(ch) {
      stack := StripStack(stack, '>');
      if stack == [] {
        return Fail, false;
      }
      if Pairs(ch, stack[|stack| - 1]) {
        stack := stack[..|stack| - 1];
        if stack == [] {
          return Stop, false;
        }
      } else {
        return Fail, false;
      }
    } else if ch == ';' {
      stack := StripStack(stack, '>');
      if stack == [] {
        return Fail, false;
      }
    }
    step := Go(stack);
  }

  lemma {:induction false} ScanLeftStep(cs: seq<Cell>, i: nat, st: seq<char>, step: Step)
    requires 0 < i <= |cs| && step == StepLeft(cs[i - 1], st)
    ensures match step
            case Go(s) => ScanLeft(cs, i, st) == ScanLeft(cs, NextLeft(cs, i), s)
            case Stop => ScanLeft(cs, i, st) == Stopped(i - 1)
            case Fail => ScanLeft(cs, i, st) == Dead
  {
  }

  /** FindStartOfExpressionInLine; the scan begins at endpos itself. */
  method FindStartOfExpressionInLine(line: string, endpos: int, pending: seq<char>) returns (start: int, rest: Rest)
    requires -1 <= endpos < |line|
    ensures match ScanLeft(LineCells(line), endpos + 1, pending)
            case Stopped(k) => start == k && rest == NoStack
            case Dead => start == -1 && rest == NoStack
            case Open(st) => start == -1 && rest == Stack(st)
  {
    ghost var cs := LineCells(line);
    ghost var goal := ScanLeft(cs, endpos + 1, pending);
    var stack := pending;
    var i := endpos;
    while i >= 0
      invariant -1 <= i < |line|
      invariant ScanLeft(cs, i + 1, stack) == goal
    {
      var step, skip := ReadLeft(line, i, stack);
      ScanLeftStep(cs, i + 1, stack, step);
      match step {
        case Go(s) => stack := s;
        case Stop => return i, NoStack;
        case Fail => return -1, NoStack;
      }
      if skip {
        i := i - 1;
      }
      i := i - 1;
    }
    return -1, Stack(stack);
  }

  /** What the search in the lines after l comes to, with what is left of the stack. */
  ghost function AfterLine(rows: seq<seq<Cell>>, l: nat, rest: Rest): Place {
    if rest.Stack? && rest.stack != [] && l + 1 < |rows| then RightFrom(rows, l + 1, 0, rest.stack) else Nowhere
  }

  ghost function BeforeLine(rows: seq<seq<Cell>>, l: nat, rest: Rest): Place
    requires l <= |rows|
  {
    if rest.Stack? && rest.stack != [] && l > 0 then LeftFrom(rows, l - 1, |rows[l - 1]|, rest.stack) else Nowhere
  }

  lemma {:induction false} RightFromLine(rows: seq<seq<Cell>>, l: nat, i: nat, st: seq<char>, end: int, rest: Rest)
    requires l < |rows| && i <= |rows[l]|
    requires match ScanRight(rows[l], i, st)
             case Stopped(k) => end == k + 1 && rest == NoStack
             case Dead => end == -1 && rest == NoStack
             case Open(st) => end == -1 && rest == Stack(st)
    ensures end == -1 || end > 0
    ensures RightFrom(rows, l, i, st) == if end > 0 then At(l, end - 1) else AfterLine(rows, l, rest)
  {
  }

  lemma {:induction false} LeftFromLine(rows: seq<seq<Cell>>, l: nat, i: nat, st: seq<char>, start: int, rest: Rest)
    requires l < |rows| && i <= |rows[l]|
    requires match ScanLeft(rows[l], i, st)
             case Stopped(k) => start == k && rest == NoStack
             case Dead => start == -1 && rest == NoStack
             case Open(st) => start == -1 && rest == Stack(st)
    ensures start >= -1
    ensures LeftFrom(rows, l, i, st) == if start >= 0 then At(l, start) else BeforeLine(rows, l, rest)
  {
  }

  /** FindEndOfExpressionInLine as part of the search in the whole file. */
  method FindEndFrom(lines: seq<string>, ghost rows: seq<seq<Cell>>, l: nat, startpos: nat, pending: seq<char>)
    returns (end: int, rest: Rest)
    requires rows == CellLines(lines) && l < |lines| && startpos <= |lines[l]|
    ensures end == -1 || end > 0
    ensures RightFrom(rows, l, startpos, pending) == if end > 0 then At(l, end - 1) else AfterLine(rows, l, rest)
  {
    end, rest := FindEndOfExpressionInLine(lines[l], startpos, pending);
    RightFromLine(rows, l, startpos, pending, end, rest);
  }

  method FindStartFrom(lines: seq<string>, ghost rows: seq<seq<Cell>>, l: nat, endpos: int, pending: seq<char>)
    returns (start: int, rest: Rest)
    requires rows == CellLines(lines) && l < |lines| && -1 <= endpos < |lines[l]|
    ensures start >= -1
    ensures LeftFrom(rows, l, endpos + 1, pending) == if start >= 0 then At(l, start) else BeforeLine(rows, l, rest)
  {
    start, rest := FindStartOfExpressionInLine(lines[l], endpos, pending);
    LeftFromLine(rows, l, endpos + 1, pending, start, rest);
  }

  /** CloseExpression: the place just past the closing bracket, or the number of lines and -1. */
  method CloseExpression(lines: seq<string>, linenum: nat, pos: nat) returns (line: string, endline: nat, end: int)
    requires IsPlace(lines, linenum, pos)
    ensures match CloseAt(lines, linenum, pos)
            case At(l, k) => endline == l && end == k + 1 && line == lines[l]
            case Nowhere => endline == |lines| && end == -1
  {
    line := lines[linenum];
    if !(IsOpen(line[pos]) || line[pos] == '<') || ShiftOrAtMost(line, pos) {
      return line, |lines|, -1;
    }
    ghost var rows, goal := CellLines(lines), CloseAt(lines, linenum, pos);
    var rest: Rest;
    end, rest := FindEndFrom(lines, rows, linenum, pos, []);
    if end > -1 {
      return line, linenum, end;
    }
    endline := linenum;
    while rest.Stack? && rest.stack != [] && endline < |lines| - 1
      invariant linenum <= endline < |lines|
      invariant goal == AfterLine(rows, endline, rest)
      decreases |lines| - endline
    {
      endline := endline + 1;
      line := lines[endline];
      end, rest := FindEndFrom(lines, rows, endline, 0, rest.stack);
      if end > -1 {
        return;
      }
    }
    return line, |lines|, -1;
  }

  /** The loop of ReverseCloseExpression over the lines before. */
  method SearchBefore(lines: seq<string>, linenum: nat, pending: Rest, ghost rows: seq<seq<Cell>>, ghost goal: Place)
    returns (line: string, startline: nat, start: int)
    requires rows == CellLines(lines) && linenum < |lines| && goal == BeforeLine(rows, linenum, pending)
    ensures match goal
            case At(l, k) => l < |lines| && startline == l && start == k && line == lines[l]
            case Nowhere => startline == 0 && start == -1
  {
    var rest := pending;
    line, startline := lines[linenum], linenum;
    while rest.Stack? && rest.stack != [] && startline > 0
      invariant startline <= linenum && goal == BeforeLine(rows, startline, rest)
      decreases startline
    {
      startline := startline - 1;
      line := lines[startline];
      start, rest := FindStartFrom(lines, rows, startline, |line| - 1, rest.stack);
      if start > -1 {
        return;
      }
    }
    return line, 0, -1;
  }

  /** ReverseCloseExpression: the place of the opening bracket, or line 0 and -1. */
  method ReverseCloseExpression(lines: seq<string>, linenum: nat, pos: nat)
    returns (line: string, startline: nat, start: int)
    requires IsPlace(lines, linenum, pos)
    ensures match ReverseAt(lines, linenum, pos)
            case At(l, k) => startline == l && start == k && line == lines[l]
            case Nowhere => startline == 0 && start == -1
  {
    line := lines[linenum];
    if !(IsClose(line[pos]) || line[pos] == '>') {
      return line, 0, -1;
    }
    ghost var rows, goal := CellLines(lines), ReverseAt(lines, linenum, pos);
    var rest: Rest;
    start, rest := FindStartFrom(lines, rows, linenum, pos, []);
    if start > -1 {
      return line, linenum, start;
    }
    line, startline, start := SearchBefore(lines, linenum, rest, rows, goal);
  }
}
