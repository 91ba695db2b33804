/**
  The lines of a file as they are read, one of them recoded, and written back over the
  old text, which is not cut off.
 */
module FileLines {
  import opened FileText
  import opened CodeText

  /** The length of the first line of t, with its newline. */
  function FirstLine(t: string): (n: nat)
    ensures n <= |t| && (t != [] ==> n > 0)
  {
    if t == [] then 0 else if t[0] == '\n' then 1 else 1 + FirstLine(t[1..])
  }

  /** readlines: each line with its newline, the last one perhaps without. */
  function ReadLines(t: string): seq<string>
    decreases |t|
  {
    if t == [] then [] else [t[..FirstLine(t)]] + ReadLines(t[FirstLine(t)..])
  }

  predicate Terminated(s: string) {
    s != [] && s[|s| - 1] == '\n'
  }

  ghost predicate OneLine(s: string) {
    s != [] && FirstLine(s) == |s|
  }

  /** Lines as they are read: all but the last end in a newline. */
  ghost predicate Proper(lines: seq<string>) {
    lines != [] ==> OneLine(lines[0]) && (|lines| > 1 ==> Terminated(lines[0])) && Proper(lines[1..])
  }

  /** A line is text without a newline, except perhaps at its end. */
  lemma {:induction false} OneLineExactly(s: string)
    ensures OneLine(s) <==> s != [] && forall i | 0 <= i < |s| - 1 :: s[i] != '\n'
  {
    if |s| > 1 {
      var rest := s[1..];
      OneLineExactly(rest);
      assert forall i | 0 <= i < |rest| :: rest[i] == s[i + 1];
      if OneLine(s) {
        forall i | 0 <= i < |s| - 1
          ensures s[i] != '\n'
        {
          assert i > 0 ==> rest[i - 1] == s[i];
        }
      }
    }
  }

  lemma {:induction false} FirstLineAppend(a: string, b: string)
    requires OneLine(a)
    ensures FirstLine(a + b) == if Terminated(a) then |a| else |a| + FirstLine(b)
    ensures OneLine((a + b)[..FirstLine(a + b)])
  {
    var t := a + b;
    assert t[0] == a[0];
    if a[0] != '\n' {
      assert t[1..] == a[1..] + b;
      if |a| == 1 {
        assert t[1..] == b;
      } else {
        FirstLineAppend(a[1..], b);
      }
    }
    FirstLineIsOne(t);
  }

  lemma {:induction false} FirstLineIsOne(t: string)
    requires t != []
    ensures OneLine(t[..FirstLine(t)])
    ensures FirstLine(t) < |t| ==> Terminated(t[..FirstLine(t)])
  {
    var s := t[..FirstLine(t)];
    if t[0] != '\n' && t[1..] != [] {
      FirstLineIsOne(t[1..]);
      assert s[1..] == t[1..][..FirstLine(t[1..])];
    }
  }

  lemma {:induction false} ReadProper(t: string)
    ensures Proper(ReadLines(t)) && Flat(ReadLines(t)) == t
    decreases |t|
  {
    if t != [] {
      var n := FirstLine(t);
      FirstLineIsOne(t);
      ReadProper(t[n..]);
      assert t == t[..n] + t[n..];
    }
  }

  lemma CutJoined(a: string, t: string, n: nat)
    requires n <= |t|
    ensures (a + t)[..|a| + n] == a + t[..n] && (a + t)[|a| + n..] == t[n..]
  {
  }

  /** A terminated line, or the last one, is read as it is. */
  lemma {:induction false} ReadFirst(a: string, t: string)
    requires OneLine(a) && (Terminated(a) || t == [])
    ensures ReadLines(a + t) == [a] + ReadLines(t)
  {
    FirstLineAppend(a, t);
    CutJoined(a, t, 0);
    assert a + t[..0] == a && t[0..] == t;
  }

  /** Without a newline at its end, the line goes on with the first line of what follows. */
  lemma {:induction false} ReadFirstOpen(a: string, t: string)
    requires OneLine(a) && !Terminated(a)
    ensures ReadLines(a + t) == [a + t[..FirstLine(t)]] + ReadLines(t[FirstLine(t)..])
  {
    FirstLineAppend(a, t);
    CutJoined(a, t, FirstLine(t));
  }

  /** Reading what was written gives the lines again. */
  lemma {:induction false} ReadBack(lines: seq<string>)
    requires Proper(lines)
    ensures ReadLines(Flat(lines)) == lines
  {
    if lines != [] {
      ReadBack(lines[1..]);
      ReadFirst(lines[0], Flat(lines[1..]));
    }
  }

  // ---------- a line stays a line

  lemma {:induction false} AroundLine(s: string)
    ensures s == [] <==> Around(s) == []
    ensures FirstLine(s) == |s| <==> FirstLine(Around(s)) == |Around(s)|
    ensures Terminated(s) <==> Terminated(Around(s))
    decreases |s|
  {
    if s != [] {
      if IsDigit(s[0]) {
        var n := DigitRun(s);
        var rest := s[n..];
        AroundLine(rest);
        assert s == s[..n] + rest;
        DigitsThenLine(s[..n], rest);
        DigitsThenLine(['0'], Around(rest));
      } else {
        var rest := s[1..];
        AroundLine(rest);
        assert s == [s[0]] + rest;
        OtherThenLine(s[0], rest);
        OtherThenLine(s[0], Around(rest));
      }
    }
  }

  lemma OtherThenLine(c: char, t: string)
    ensures FirstLine([c] + t) == if c == '\n' then 1 else 1 + FirstLine(t)
    ensures Terminated([c] + t) <==> if t == [] then c == '\n' else Terminated(t)
  {
    var s := [c] + t;
    assert s[0] == c && s[1..] == t;
  }

  lemma {:induction false} DigitsThenLine(d: string, t: string)
    requires d != [] && forall i | 0 <= i < |d| :: IsDigit(d[i])
    ensures FirstLine(d + t) == |d| + FirstLine(t) && (Terminated(d + t) <==> Terminated(t))
  {
    var s := d + t;
    assert s[0] == d[0] && s[1..] == d[1..] + t;
    if |d| == 1 {
      assert s[1..] == t;
    } else {
      DigitsThenLine(d[1..], t);
    }
  }

  lemma SubLine(s: string, code: Digits)
    requires OneLine(s)
    ensures OneLine(Sub(s, code)) && (Terminated(Sub(s, code)) <==> Terminated(s))
  {
    SubNumbers(s, code);
    AroundLine(s);
    AroundLine(Sub(s, code));
  }

  // ---------- writing back

  /** The lines with one of them recoded, if there is such a line. */
  function Recode(lines: seq<string>, l: nat, code: Digits): seq<string> {
    if l < |lines| then lines[l := Sub(lines[l], code)] else lines
  }

  lemma {:induction false} RecodeProper(lines: seq<string>, l: nat, code: Digits)
    requires Proper(lines)
    ensures Proper(Recode(lines, l, code))
  {
    if l < |lines| {
      SubLine(lines[l], code) by { ProperAt(lines, l); }
      var lines' := Recode(lines, l, code);
      if l == 0 {
        assert lines'[1..] == lines[1..];
      } else {
        RecodeProper(lines[1..], l - 1, code);
        assert lines'[1..] == Recode(lines[1..], l - 1, code);
      }
    }
  }

  lemma {:induction false} ProperAt(lines: seq<string>, l: nat)
    requires Proper(lines) && l < |lines|
    ensures OneLine(lines[l]) && (l + 1 < |lines| ==> Terminated(lines[l]))
  {
    if l > 0 {
      ProperAt(lines[1..], l - 1);
    }
  }

  /** The file after text was written over its start, without cutting off what was there before. */
  function Overwritten(before: string, text: string): string {
    if |text| < |before| then text + before[|text|..] else text
  }

  /** The text to be written when line l of the text Flat(lines) + more is recoded. */
  ghost function NewText(lines: seq<string>, more: string, l: nat, code: Digits): string {
    Flat(Recode(ReadLines(Flat(lines) + more), l, code))
  }

  lemma {:induction false} RecodeNonempty(lines: seq<string>, l: nat, code: Digits)
    requires Proper(lines)
    ensures Flat(Recode(lines, l, code)) == [] <==> lines == []
  {
    if lines != [] {
      RecodeProper(lines, l, code);
      assert OneLine(Recode(lines, l, code)[0]);
    }
  }

  lemma {:induction false} RecodeRest(first: string, rest: seq<string>, l: nat, code: Digits)
    requires l > 0
    ensures Flat(Recode([first] + rest, l, code)) == first + Flat(Recode(rest, l - 1, code))
  {
    var all := Recode([first] + rest, l, code);
    assert all[0] == first && all[1..] == Recode(rest, l - 1, code);
  }

  lemma {:induction false} RecodeStart(first: string, rest: seq<string>, code: Digits)
    ensures Flat(Recode([first] + rest, 0, code)) == Sub(first, code) + Flat(rest)
  {
    var all := Recode([first] + rest, 0, code);
    assert all[0] == Sub(first, code) && all[1..] == rest;
  }

  /** The last line ends in the digits of a number after a parenthesis. */
  ghost predicate LastInSlot(lines: seq<string>) {
    lines != [] && EndsInSlot(lines[|lines| - 1])
  }

  /**
    What follows the lines in a text may move, and grow or shrink, when a line is recoded,
    but it does not disappear unless the last line runs into it.
   */
  ghost predicate Followed(lines: seq<string>, more: string, l: nat, code: Digits, more': string) {
    && NewText(lines, more, l, code) == Flat(Recode(lines, l, code)) + more'
    && (more == [] ==> more' == [])
    && (more != [] && !LastInSlot(lines) ==> more' != [])
  }

  lemma {:induction false} NewTextFollowed(lines: seq<string>, more: string, l: nat, code: Digits)
    returns (more': string)
    requires Proper(lines)
    ensures Followed(lines, more, l, code, more')
  {
    if lines == [] {
      assert Flat(lines) + more == more;
      more' := Flat(Recode(ReadLines(more), l, code));
      ReadProper(more);
      RecodeNonempty(ReadLines(more), l, code);
      assert Flat([]) + more' == more';
    } else if |lines| == 1 && !Terminated(lines[0]) {
      more' := FollowedOpen(lines[0], more, l, code);
      assert lines == [lines[0]];
    } else {
      if l == 0 {
        more' := more;
        FollowedFirst(lines, more, code);
      } else {
        more' := NewTextFollowed(lines[1..], more, l - 1, code);
        FollowedLater(lines, more, l, code, more');
      }
    }
  }

  lemma FlatOne(first: string)
    ensures Flat([first]) == first
  {
    var lines := [first];
    assert lines[1..] == [] && Concat(lines) == lines[0] + Concat(lines[1..]);
  }

  lemma {:induction false} FollowedOpen(first: string, more: string, l: nat, code: Digits) returns (more': string)
    requires OneLine(first) && !Terminated(first)
    ensures Followed([first], more, l, code, more')
  {
    FlatOne(first);
    ReadFirstOpen(first, more);
    var n := FirstLine(more);
    var start, rest := more[..n], more[n..];
    ReadProper(rest);
    if l == 0 {
      RecodeStart(first + start, ReadLines(rest), code);
      var x := SubAppend(first, start, code);
      more' := x + rest;
      JoinTwo(Sub(first, code), x, rest);
      RecodeStart(first, [], code);
      assert [first] + [] == [first];
    } else {
      RecodeRest(first + start, ReadLines(rest), l, code);
      more' := start + Flat(Recode(ReadLines(rest), l - 1, code));
      JoinTwo(first, start, Flat(Recode(ReadLines(rest), l - 1, code)));
      RecodeNonempty(ReadLines(rest), l - 1, code);
    }
  }

  /** The lines after a terminated one are read by themselves. */
  lemma ReadAfterFirst(lines: seq<string>, more: string)
    requires Proper(lines) && lines != [] && (|lines| > 1 || Terminated(lines[0]))
    ensures ReadLines(Flat(lines) + more) == [lines[0]] + ReadLines(Flat(lines[1..]) + more)
  {
    var tail := Flat(lines[1..]) + more;
    JoinTwo(lines[0], Flat(lines[1..]), more);
    ReadFirst(lines[0], tail);
  }

  lemma {:induction false} FollowedFirst(lines: seq<string>, more: string, code: Digits)
    requires Proper(lines) && lines != [] && (|lines| > 1 || Terminated(lines[0]))
    ensures Followed(lines, more, 0, code, more)
  {
    var first, rest := lines[0], lines[1..];
    var tail := Flat(rest) + more;
    ReadAfterFirst(lines, more);
    ReadProper(tail);
    RecodeStart(first, ReadLines(tail), code);
    RecodeStart(first, rest, code);
    assert lines == [first] + rest;
    JoinTwo(Sub(first, code), Flat(rest), more);
  }

  lemma {:induction false} FollowedLater(lines: seq<string>, more: string, l: nat, code: Digits, more': string)
    requires Proper(lines) && lines != [] && (|lines| > 1 || Terminated(lines[0])) && l > 0
    requires Followed(lines[1..], more, l - 1, code, more')
    ensures Followed(lines, more, l, code, more')
  {
    var first, rest := lines[0], lines[1..];
    ReadAfterFirst(lines, more);
    RecodeRest(first, ReadLines(Flat(rest) + more), l, code);
    RecodeRest(first, rest, l, code);
    assert lines == [first] + rest;
    JoinTwo(first, Flat(Recode(rest, l - 1, code)), more');
  }

  // ---------- one visit

  /** Reading the lines of the file, recoding one of them, and writing all of them back. */
  function Visit(text: string, l: nat, code: Digits): string
    requires l < |ReadLines(text)|
  {
    var lines := ReadLines(text);
    Overwritten(text, Join(lines[l := Sub(lines[l], code)]))
  }

  /** writelines: the lines one after the other. */
  function Join(lines: seq<string>): (t: string)
    ensures t == Flat(lines)
  {
    if lines == [] then [] else lines[0] + Join(lines[1..])
  }

  /** How a recoded line changes the length of the text. */
  lemma RecodeLength(lines: seq<string>, l: nat, code: Digits)
    requires l < |lines|
    ensures |Flat(Recode(lines, l, code))| == |Flat(lines)| + Gain(Numbers(lines[l]), code)
  {
    var lines' := Recode(lines, l, code);
    SubNumbers(lines[l], code);
    ConcatSplit(lines, l);
    ConcatSplit(lines', l);
    assert lines'[..l] == lines[..l] && lines'[l + 1..] == lines[l + 1..];
  }

  /**
    The lines of a file, one of them recoded, are written over the old ones. The file then
    holds the new lines, and nothing more, exactly when the recoded numbers do not get
    shorter together.
   */
  lemma WriteBackExactly(lines: seq<string>, l: nat, code: Digits)
    requires l < |lines|
    ensures var after := Flat(Recode(lines, l, code));
            Overwritten(Flat(lines), after) == after <==> Gain(Numbers(lines[l]), code) >= 0
  {
    RecodeLength(lines, l, code);
  }

  lemma OverwrittenMore(before: string, start: string, more: string) returns (more': string)
    ensures Overwritten(before, start + more) == start + more'
    ensures more' == if |start + more| < |before| then more + before[|start + more|..] else more
  {
    var text := start + more;
    if |text| < |before| {
      var tail := before[|text|..];
      more' := more + tail;
      JoinTwo(start, more, tail);
    } else {
      more' := more;
    }
  }

  /** A visit of a file that holds the lines, perhaps with more text after them. */
  lemma {:induction false} VisitKeeps(lines: seq<string>, more: string, l: nat, code: Digits) returns (more': string)
    requires Proper(lines) && l < |ReadLines(Flat(lines) + more)|
    ensures Visit(Flat(lines) + more, l, code) == Flat(Recode(lines, l, code)) + more'
    ensures more == [] ==> l < |lines| && (more' == [] <==> Gain(Numbers(lines[l]), code) >= 0)
    ensures more != [] && !LastInSlot(lines) ==> more' != []
  {
    var text, start := Flat(lines) + more, Flat(Recode(lines, l, code));
    var x := NewTextFollowed(lines, more, l, code);
    more' := OverwrittenMore(text, start, x);
    if more == [] {
      assert text == Flat(lines);
      ReadBack(lines);
      RecodeLength(lines, l, code);
    }
  }

  lemma {:induction false} RecodeKeepsSlot(lines: seq<string>, l: nat, code: Digits)
    ensures LastInSlot(Recode(lines, l, code)) <==> LastInSlot(lines)
  {
    if l < |lines| {
      SubNumbers(lines[l], code);
    }
  }

  /** A terminated line is read as it is, whatever follows the lines, and no line is lost. */
  lemma {:induction false} ReadOver(lines: seq<string>, more: string, l: nat)
    requires Proper(lines) && l < |lines|
    ensures |ReadLines(Flat(lines) + more)| >= |lines|
    ensures Terminated(lines[l]) ==> ReadLines(Flat(lines) + more)[l] == lines[l]
  {
    var first, rest := lines[0], lines[1..];
    var tail := Flat(rest) + more;
    JoinTwo(first, Flat(rest), more);
    if Terminated(first) {
      ReadFirst(first, tail);
      if rest != [] {
        ReadOver(rest, more, if l > 0 then l - 1 else 0);
      }
    } else {
      ReadFirstOpen(first, tail);
    }
  }

  // ---------- what is left behind

  /**
    What is left behind the lines of a text: so many digits, which only happens where they
    run into a last number after a parenthesis, or something that no write removes again.
   */
  datatype Left = Run(digits: nat) | Stuck

  ghost predicate Leaves(left: Left, lines: seq<string>, more: string) {
    match left
    case Run(e) => |more| == e && NonDigits(more) == 0 && (e > 0 ==> LastInSlot(lines))
    case Stuck => more != [] && (LastInSlot(lines) ==> NonDigits(more) > 0)
  }

  /** What is left behind after one more visit, which changes the length of the lines by gain. */
  ghost function AfterVisit(left: Left, lines: seq<string>, l: nat, gain: int): Left {
    match left
    case Stuck => Stuck
    case Run(e) =>
      var swallowed := if LastInSlot(lines) && l == |lines| - 1 then e else 0;
      var over, run := swallowed - gain, if LastInSlot(lines) then EndRun(Flat(lines)) + e else 0;
      if over <= 0 then Run(e - swallowed)
      else if over <= run then Run(e - swallowed + over)
      else Stuck
  }

  lemma NonDigitsRecode(lines: seq<string>, l: nat, code: Digits)
    ensures NonDigits(Flat(Recode(lines, l, code))) == NonDigits(Flat(lines))
  {
    if l < |lines| {
      var lines' := Recode(lines, l, code);
      NonDigitsAt(lines, l);
      NonDigitsAt(lines', l);
      assert lines'[..l] == lines[..l] && lines'[l + 1..] == lines[l + 1..];
      NonDigitsSub(lines[l], code);
    }
  }

  lemma NonDigitsAt(lines: seq<string>, l: nat)
    requires l < |lines|
    ensures NonDigits(Flat(lines)) ==
            NonDigits(Flat(lines[..l])) + NonDigits(lines[l]) + NonDigits(Flat(lines[l + 1..]))
  {
    ConcatSplit(lines, l);
    NonDigitsJoin(Flat(lines[..l]), lines[l]);
    NonDigitsJoin(Flat(lines[..l]) + lines[l], Flat(lines[l + 1..]));
  }

  /** Old text with a character that is no digit keeps one. */
  lemma StuckStays(lines: seq<string>, more: string, l: nat, code: Digits, more': string)
    requires NewText(lines, more, l, code) == Flat(Recode(lines, l, code)) + more'
    ensures NonDigits(more') == NonDigits(more)
  {
    var text := Flat(lines) + more;
    ReadProper(text);
    NonDigitsRecode(ReadLines(text), l, code);
    NonDigitsRecode(lines, l, code);
    NonDigitsJoin(Flat(lines), more);
    NonDigitsJoin(Flat(Recode(lines, l, code)), more');
  }

  /** The lines with more text at the end of the last one. */
  ghost function Lengthened(lines: seq<string>, more: string): seq<string>
    requires lines != []
  {
    lines[|lines| - 1 := lines[|lines| - 1] + more]
  }

  lemma {:induction false} LengthenedFlat(lines: seq<string>, more: string)
    requires lines != []
    ensures Flat(Lengthened(lines, more)) == Flat(lines) + more
  {
    var l, longer := |lines| - 1, Lengthened(lines, more);
    ConcatSplit(lines, l);
    ConcatSplit(longer, l);
    assert longer[..l] == lines[..l] && longer[l + 1..] == [] && lines[l + 1..] == [];
    JoinTwo(Flat(lines[..l]), lines[l], more);
  }

  lemma {:induction false} LengthenedProper(lines: seq<string>, more: string)
    requires Proper(lines) && LastInSlot(lines) && NonDigits(more) == 0
    ensures Proper(Lengthened(lines, more))
  {
    var longer := Lengthened(lines, more);
    if |lines| == 1 {
      EndsInDigit(lines[0], false);
      DigitsOneLine(more);
      FirstLineAppend(lines[0], more);
      assert longer[1..] == [];
    } else {
      LengthenedProper(lines[1..], more);
      assert longer[1..] == Lengthened(lines[1..], more);
    }
  }

  lemma {:induction false} DigitsOneLine(t: string)
    requires NonDigits(t) == 0
    ensures FirstLine(t) == |t|
  {
    if t != [] {
      DigitsOneLine(t[1..]);
    }
  }

  /** Digits after a last number are read with it. */
  lemma DigitsRead(lines: seq<string>, more: string)
    requires Proper(lines) && LastInSlot(lines) && NonDigits(more) == 0
    ensures ReadLines(Flat(lines) + more) == Lengthened(lines, more)
  {
    LengthenedFlat(lines, more);
    LengthenedProper(lines, more);
    ReadBack(Lengthened(lines, more));
  }

  /** They are replaced with it, */
  lemma {:induction false} DigitsSwallowed(lines: seq<string>, more: string, code: Digits)
    requires Proper(lines) && LastInSlot(lines) && NonDigits(more) == 0
    ensures NewText(lines, more, |lines| - 1, code) == Flat(Recode(lines, |lines| - 1, code))
  {
    var last := |lines| - 1;
    DigitsRead(lines, more);
    AllDigits(more);
    var x := SubAppend(lines[last], more, code);
    assert Sub(lines[last], code) + [] == Sub(lines[last], code);
    assert Recode(Lengthened(lines, more), last, code) == Recode(lines, last, code);
  }

  /** and stay when another line is changed. */
  lemma {:induction false} DigitsKept(lines: seq<string>, more: string, l: nat, code: Digits)
    requires Proper(lines) && LastInSlot(lines) && NonDigits(more) == 0 && l < |lines| - 1
    ensures NewText(lines, more, l, code) == Flat(Recode(lines, l, code)) + more
  {
    DigitsRead(lines, more);
    assert Recode(Lengthened(lines, more), l, code) == Lengthened(Recode(lines, l, code), more);
    LengthenedFlat(Recode(lines, l, code), more);
  }

  /** The digits that a visit of line l does not swallow. */
  ghost function Unswallowed(lines: seq<string>, more: string, l: nat): string {
    if l == |lines| - 1 then [] else more
  }

  lemma {:induction false} DigitsFollow(lines: seq<string>, more: string, l: nat, code: Digits)
    requires Proper(lines) && LastInSlot(lines) && NonDigits(more) == 0
    ensures |ReadLines(Flat(lines) + more)| == |lines|
    ensures l < |lines| ==>
              NewText(lines, more, l, code) == Flat(Recode(lines, l, code)) + Unswallowed(lines, more, l)
  {
    DigitsRead(lines, more);
    if l == |lines| - 1 {
      DigitsSwallowed(lines, more, code);
      assert Flat(Recode(lines, l, code)) + [] == Flat(Recode(lines, l, code));
    } else if l < |lines| {
      DigitsKept(lines, more, l, code);
    }
  }

  /** What the digits and the old end of the text come to. */
  lemma {:induction false} RunLeft(lines: seq<string>, more: string, l: nat, gain: int, over: int,
                                   lines': seq<string>, more': string)
    requires LastInSlot(lines) && LastInSlot(lines') && NonDigits(more) == 0
    requires over == |more| - |Unswallowed(lines, more, l)| - gain && over <= |Flat(lines) + more|
    requires var text, x := Flat(lines) + more, Unswallowed(lines, more, l);
             more' == if over > 0 then x + text[|text| - over..] else x
    ensures Leaves(AfterVisit(Run(|more|), lines, l, gain), lines', more')
  {
    var text, x := Flat(lines) + more, Unswallowed(lines, more, l);
    EndRunJoin(Flat(lines), more);
    if over > 0 {
      EndRunExactly(text, over);
      NonDigitsJoin(x, text[|text| - over..]);
    }
  }

  lemma {:induction false} VisitLeavesStuck(lines: seq<string>, more: string, l: nat, code: Digits)
    returns (more': string)
    requires Proper(lines) && Leaves(Stuck, lines, more) && l < |ReadLines(Flat(lines) + more)|
    ensures Visit(Flat(lines) + more, l, code) == Flat(Recode(lines, l, code)) + more'
    ensures Leaves(Stuck, Recode(lines, l, code), more')
  {
    var text, start := Flat(lines) + more, Flat(Recode(lines, l, code));
    var x := NewTextFollowed(lines, more, l, code);
    StuckStays(lines, more, l, code, x);
    RecodeKeepsSlot(lines, l, code);
    more' := OverwrittenMore(text, start, x);
    if |start + x| < |text| {
      NonDigitsJoin(x, text[|start + x|..]);
    }
  }

  lemma {:induction false} VisitLeavesRun(lines: seq<string>, more: string, l: nat, code: Digits)
    returns (more': string)
    requires Proper(lines) && LastInSlot(lines) && NonDigits(more) == 0 && l < |ReadLines(Flat(lines) + more)|
    ensures l < |lines| && Visit(Flat(lines) + more, l, code) == Flat(Recode(lines, l, code)) + more'
    ensures Leaves(AfterVisit(Run(|more|), lines, l, Gain(Numbers(lines[l]), code)), Recode(lines, l, code), more')
  {
    var text, start := Flat(lines) + more, Flat(Recode(lines, l, code));
    DigitsFollow(lines, more, l, code);
    RecodeLength(lines, l, code);
    RecodeKeepsSlot(lines, l, code);
    var x := Unswallowed(lines, more, l);
    more' := OverwrittenMore(text, start, x);
    RunLeft(lines, more, l, Gain(Numbers(lines[l]), code), |text| - |start + x|, Recode(lines, l, code), more');
  }

  /** A visit leaves behind what AfterVisit says. */
  lemma {:induction false} VisitLeaves(left: Left, lines: seq<string>, more: string, l: nat, code: Digits)
    returns (more': string)
    requires Proper(lines) && Leaves(left, lines, more) && l < |ReadLines(Flat(lines) + more)|
    ensures Visit(Flat(lines) + more, l, code) == Flat(Recode(lines, l, code)) + more'
    ensures left.Run? ==> l < |lines|
    ensures Leaves(if l < |lines| then AfterVisit(left, lines, l, Gain(Numbers(lines[l]), code)) else Stuck,
                   Recode(lines, l, code), more')
  {
    if left.Stuck? {
      more' := VisitLeavesStuck(lines, more, l, code);
    } else if LastInSlot(lines) {
      more' := VisitLeavesRun(lines, more, l, code);
    } else {
      more' := VisitKeeps(lines, more, l, code);
      RecodeKeepsSlot(lines, l, code);
    }
  }

  // ---------- two small files

  lemma {:induction false} ReadUnbroken(t: string)
    requires t != [] && forall i | 0 <= i < |t| :: t[i] != '\n'
    ensures FirstLine(t) == |t| && ReadLines(t) == [t]
  {
    if |t| > 1 {
      ReadUnbroken(t[1..]);
    }
    assert t[..|t|] == t && t[|t|..] == [];
  }

  /** Two numbers after parentheses, and what follows them. */
  ghost function TwoNumbers(a: Digits, b: Digits, rest: string): string {
    "(" + (a + ("(" + (b + rest)))
  }

  ghost predicate Unbroken(t: string) {
    t != [] && forall i | 0 <= i < |t| :: t[i] != '\n'
  }

  lemma VisitUnbroken(t: string, code: Digits)
    requires Unbroken(t)
    ensures ReadLines(t) == [t] && Visit(t, 0, code) == Overwritten(t, Sub(t, code))
  {
    ReadUnbroken(t);
    FlatOne(Sub(t, code));
    assert [t][0 := Sub(t, code)] == [Sub(t, code)];
  }

  lemma SubTwoNumbers(a: Digits, b: Digits, rest: string, code: Digits)
    requires rest == [] || rest == [')']
    ensures Sub(TwoNumbers(a, b, rest), code) == TwoNumbers(code, code, rest)
  {
    SubMatch("(", b, rest, code);
    SubMatch("(", a, "(" + (b + rest), code);
    if rest == [')'] {
      SubOther(')', [], code);
      assert [')'] + [] == rest;
    }
  }

  lemma UnbrokenTwoNumbers(a: Digits, b: Digits, rest: string)
    requires rest == [] || rest == [')']
    ensures Unbroken(TwoNumbers(a, b, rest))
  {
  }

  lemma VisitTwoNumbers(a: Digits, b: Digits, rest: string, code: Digits)
    requires rest == [] || rest == [')']
    ensures var t, t' := TwoNumbers(a, b, rest), TwoNumbers(code, code, rest);
            ReadLines(t) == [t] && Visit(t, 0, code) == Overwritten(t, t')
  {
    SubTwoNumbers(a, b, rest, code);
    UnbrokenTwoNumbers(a, b, rest);
    VisitUnbroken(TwoNumbers(a, b, rest), code);
  }

  /** A file of one line whose zero stands beside a long number: its old end is left behind. */
  lemma LeftBehindExample(zero: Digits, long: Digits, code: Digits)
    requires |zero| == 1 && |long| >= 2 * |code|
    ensures var t, t' := TwoNumbers(zero, long, [')']), TwoNumbers(code, code, [')']);
            ReadLines(t) == [t] && Visit(t, 0, code) == t' + t[|t'|..] != t'
  {
    VisitTwoNumbers(zero, long, [')'], code);
  }

  lemma TwoNumbersAre(a: Digits, b: Digits)
    ensures TwoNumbers(a, b, []) == "(" + a + "(" + b
  {
    assert b + [] == b;
  }

  /** What is left behind the shorter line makes its last number longer. */
  lemma LongerEnd(zero: Digits, long: Digits, a: Digits, longer: Digits)
    requires |zero| == 1 && 2 * |a| <= |long| && longer == a + long[2 * |a| - 1..]
    ensures Overwritten(TwoNumbers(zero, long, []), TwoNumbers(a, a, [])) == TwoNumbers(a, longer, [])
  {
    TwoNumbersAre(zero, long);
    TwoNumbersAre(a, a);
    TwoNumbersAre(a, longer);
    var head, tail := "(" + zero + "(", long[2 * |a| - 1..];
    assert (head + long)[|head| + 2 * |a| - 1..] == tail;
    assert ("(" + a + "(") + (a + tail) == ("(" + a + "(" + a) + tail;
  }

  /**
    A file that ends in a number after a parenthesis: the first visit leaves old digits
    behind, which run into the last number, and the second visit replaces them with it.
   */
  lemma {:induction false} SwallowedExample(zero: Digits, long: Digits, a: Digits, b: Digits)
    requires |zero| == 1 && 2 * |a| <= |long| < 2 * |b|
    ensures var t, t' := TwoNumbers(zero, long, []), Visit(TwoNumbers(zero, long, []), 0, a);
            && ReadLines(t) == [t] && t' != TwoNumbers(a, a, [])
            && |ReadLines(t')| == 1 && Visit(t', 0, b) == TwoNumbers(b, b, [])
  {
    var longer: Digits := a + long[2 * |a| - 1..];
    VisitTwoNumbers(zero, long, [], a);
    LongerEnd(zero, long, a, longer);
    VisitTwoNumbers(a, longer, [], b);
  }
}
