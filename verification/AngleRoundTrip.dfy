/** When the two finders undo each other from a template bracket <, and that they need not. */
module AngleRoundTrip {
  import opened Brackets
  import opened FileText
  import opened LineScan
  import opened FilePairs
  import opened AngleChars
  import opened AnglePairs
  import opened AnglePairsLeft

  /**
    From a < that goes onto the stack of one finder and a > that goes onto the stack of the
    other, each leads to the other exactly when the text between them takes the count from
    one to zero in both readings.
   */
  lemma RoundTripExactly(lines: seq<string>, l: nat, p: nat, l': nat, q: nat)
    requires IsPlace(lines, l, p) && StartsList(lines[l], p)
    requires IsPlace(lines, l', q) && lines[l'][q] == '>' && !PassedLeft(lines[l'], q)
    ensures CloseAt(lines, l, p) == At(l', q) && ReverseAt(lines, l', q) == At(l, p) <==>
            && !PassedRight(lines[l'], q)
            && CountsDown(TextCells(lines), Offset(lines, l, p) + 1, 1, Offset(lines, l', q))
            && CountsBack(TextCells(lines), Offset(lines, l, p) + 1, Offset(lines, l', q), 1)
  {
    AngleExact(lines, l, p, l', q);
    ReverseAngleExact(lines, l, p, l', q);
  }

  /** Once the scan to the right has led there, the way back is decided by the count from the right alone. */
  lemma WayBackExactly(lines: seq<string>, l: nat, p: nat, l': nat, q: nat)
    requires IsPlace(lines, l, p) && StartsList(lines[l], p)
    requires IsPlace(lines, l', q) && CloseAt(lines, l, p) == At(l', q) && !PassedLeft(lines[l'], q)
    ensures ReverseAt(lines, l', q) == At(l, p) <==>
            CountsBack(TextCells(lines), Offset(lines, l, p) + 1, Offset(lines, l', q), 1)
  {
    AngleExact(lines, l, p, l', q);
    ReverseAngleExact(lines, l, p, l', q);
  }

  /** On a<b >= c the > closes the < to the right, but to the left it is an operator and leads nowhere. */
  lemma OneWayExample()
    ensures CloseAt(["a<b >= c"], 0, 1) == At(0, 4) && ReverseAt(["a<b >= c"], 0, 4) == Nowhere
  {
    var line := "a<b >= c";
    var cs := LineCells(line);
    assert cs[0] == CellAt(line, 0) && cs[1] == CellAt(line, 1) && cs[2] == CellAt(line, 2);
    assert cs[3] == CellAt(line, 3) && cs[4] == CellAt(line, 4);
    OneWayRight(line, cs);
    OneWayLeft(line, cs);
  }

  lemma OneWayRight(line: string, cs: seq<Cell>)
    requires line == "a<b >= c" && cs == LineCells(line)
    ensures ScanRight(cs, 1, []) == Stopped(4)
  {
    assert [] + ['<'] == ['<'];
    assert ScanRight(cs, 1, []) == ScanRight(cs, 2, ['<']);
    assert ScanRight(cs, 2, ['<']) == ScanRight(cs, 3, ['<']) == ScanRight(cs, 4, ['<']);
    assert ScanRight(cs, 4, ['<']) == Stopped(4);
  }

  lemma OneWayLeft(line: string, cs: seq<Cell>)
    requires line == "a<b >= c" && cs == LineCells(line)
    ensures ScanLeft(cs, 5, []) == Open([])
  {
    assert SpacedAtLeast(line, 3);
    assert ScanLeft(cs, 5, []) == ScanLeft(cs, 3, []);
    assert ScanLeft(cs, 3, []) == ScanLeft(cs, 2, []);
    assert ScanLeft(cs, 2, []) == ScanLeft(cs, 1, []) == ScanLeft(cs, 0, []);
  }
}
