/** Choosing the next code, and replacing zero codes in the source files. */
module ErrorRepair {
  import opened ErrorCodes
  import opened Seqs
  import opened FileText
  import opened CodeText
  import opened FileLines

  const ZERO: Digits := "0"

  datatype NextCode = Next(code: nat) | TypeError

  /**
    getNextCode, once the codes were collected: one more than the highest code. With fewer
    than two codes it fails: reduce then never calls its function, so that it has nothing
    to return, or gives back the one code as text, to which no number can be added.
   */
  method GetNextCode(codes: seq<Digits>) returns (r: NextCode)
    ensures r.Next? <==> |codes| >= 2
    ensures r.Next? ==> forall i | 0 <= i < |codes| :: IntOf(codes[i]) < r.code
    ensures r.Next? ==> exists i :: 0 <= i < |codes| && IntOf(codes[i]) + 1 == r.code
  {
    if |codes| < 2 {
      return NextCode.TypeError;
    }
    var highest := IntOf(codes[0]);
    for i := 1 to |codes|
      invariant forall j | 0 <= j < i :: IntOf(codes[j]) <= highest
      invariant exists j :: 0 <= j < i && IntOf(codes[j]) == highest
    {
      var y := IntOf(codes[i]);
      highest := if y > highest then y else highest;
    }
    return Next(highest + 1);
  }

  /** A line of a file. */
  datatype Place = Place(file: string, line: nat)

  /** The source files by name. */
  type Texts = map<string, string>

  predicate HasLine(texts: Texts, p: Place) {
    p.file in texts && p.line < |ReadLines(texts[p.file])|
  }

  function LineAt(texts: Texts, p: Place): string
    requires HasLine(texts, p)
  {
    ReadLines(texts[p.file])[p.line]
  }

  /** An assertion found: the line of its code, which number of that line the code is, and the code. */
  datatype Location = Location(place: Place, number: nat, code: Digits)

  /** Locations are true of the files, except that one may name a line past the end of its file. */
  ghost predicate Located(locs: seq<Location>, texts: Texts) {
    forall i | 0 <= i < |locs| ::
      && locs[i].place.file in texts
      && (HasLine(texts, locs[i].place) ==> At(LineAt(texts, locs[i].place), locs[i]))
  }

  ghost predicate At(line: string, loc: Location) {
    loc.number < |Numbers(line)| && Numbers(line)[loc.number].digits == loc.code
  }

  function Codes(locs: seq<Location>): seq<Digits> {
    seq(|locs|, i requires 0 <= i < |locs| => locs[i].code)
  }

  // ---------- visiting lines

  /** What becomes of the line at p when the lines at zs are visited in turn, with the codes from next on. */
  ghost function Rewritten(zs: seq<Place>, next: nat, p: Place, line: string): string {
    if zs == [] then line
    else
      var before := Rewritten(zs[..|zs| - 1], next, p, line);
      if zs[|zs| - 1] == p then Sub(before, StrOf(next + |zs| - 1)) else before
  }

  lemma {:induction false} RecodedTwice(ns: seq<Number>, a: Digits, b: Digits)
    ensures Recoded(Recoded(ns, a), b) == Recoded(ns, b)
  {
    if ns != [] {
      RecodedTwice(ns[1..], a, b);
    }
  }

  lemma {:induction false} RecodedAt(ns: seq<Number>, code: Digits, k: nat)
    requires k < |ns|
    ensures |Recoded(ns, code)| == |ns|
    ensures Recoded(ns, code)[k] == if ns[k].afterParen then Number(code, true) else ns[k]
  {
    if k > 0 {
      RecodedAt(ns[1..], code, k - 1);
    } else if |ns| > 1 {
      RecodedAt(ns[1..], code, 0);
    }
  }

  /**
    On a visited line the numbers after a parenthesis hold the code of the last visit, and
    everything else is as before; a line that is not visited stays as it is.
   */
  lemma {:induction false} RewrittenNumbers(zs: seq<Place>, next: nat, p: Place, line: string) returns (v: nat)
    ensures p !in zs ==> Rewritten(zs, next, p, line) == line
    ensures p in zs ==> v < |zs| && zs[v] == p &&
                        Numbers(Rewritten(zs, next, p, line)) == Recoded(Numbers(line), StrOf(next + v))
    ensures Around(Rewritten(zs, next, p, line)) == Around(line)
  {
    v := 0;
    if zs != [] {
      var l := |zs| - 1;
      var before := Rewritten(zs[..l], next, p, line);
      var u := RewrittenNumbers(zs[..l], next, p, line);
      assert zs == zs[..l] + [zs[l]];
      if zs[l] == p {
        v := l;
        SubNumbers(before, StrOf(next + l));
        if p in zs[..l] {
          RecodedTwice(Numbers(line), StrOf(next + u), StrOf(next + l));
        }
      } else {
        v := u;
      }
    }
  }

  lemma {:induction false} VisitedNumber(zs: seq<Place>, next: nat, p: Place, line: string, k: nat) returns (v: nat)
    requires p in zs && k < |Numbers(line)|
    ensures v < |zs| && zs[v] == p
    ensures var ns := Numbers(Rewritten(zs, next, p, line));
            && |ns| == |Numbers(line)|
            && ns[k] == if Numbers(line)[k].afterParen then Number(StrOf(next + v), true) else Numbers(line)[k]
  {
    v := RewrittenNumbers(zs, next, p, line);
    RecodedAt(Numbers(line), StrOf(next + v), k);
  }

  // ---------- which numbers get which codes

  /** The number k of a line is one that the substitution replaces. */
  ghost predicate Slot(line: string, k: nat) {
    k < |Numbers(line)| && Numbers(line)[k].afterParen
  }

  ghost predicate SameNumber(a: string, k: nat, b: string, m: nat) {
    k < |Numbers(a)| && m < |Numbers(b)| && Numbers(a)[k].digits == Numbers(b)[m].digits
  }

  lemma {:induction false} SameOnOneLine(zs: seq<Place>, next: nat, p: Place, a: string, k: nat, m: nat)
    requires p in zs && Slot(a, k) && Slot(a, m)
    ensures SameNumber(Rewritten(zs, next, p, a), k, Rewritten(zs, next, p, a), m)
  {
    var v := RewrittenNumbers(zs, next, p, a);
    RecodedAt(Numbers(a), StrOf(next + v), k);
    RecodedAt(Numbers(a), StrOf(next + v), m);
  }

  /** Two replaced numbers are the same afterwards exactly when they are on the same line. */
  lemma {:induction false} SameExactly(zs: seq<Place>, next: nat, p: Place, a: string, k: nat,
                                       q: Place, b: string, m: nat)
    requires p in zs && q in zs && Slot(a, k) && Slot(b, m) && (p == q ==> a == b)
    ensures SameNumber(Rewritten(zs, next, p, a), k, Rewritten(zs, next, q, b), m) <==> p == q
  {
    if p == q {
      SameOnOneLine(zs, next, p, a, k, m);
    } else {
      var v := VisitedNumber(zs, next, p, a, k);
      var w := VisitedNumber(zs, next, q, b, m);
      IntOfStr(next + v);
      IntOfStr(next + w);
    }
  }

  /** The replaced numbers on the visited lines are pairwise distinct. */
  ghost predicate AllDistinct(zs: seq<Place>, next: nat, texts: Texts)
    requires forall p | p in zs :: HasLine(texts, p)
  {
    forall p, q, k: nat, m: nat | p in zs && q in zs && (p != q || k != m) &&
                                  Slot(LineAt(texts, p), k) && Slot(LineAt(texts, q), m) ::
      !SameNumber(Rewritten(zs, next, p, LineAt(texts, p)), k, Rewritten(zs, next, q, LineAt(texts, q)), m)
  }

  /** Replaced numbers are pairwise distinct exactly when no visited line holds two of them. */
  lemma DistinctExactly(zs: seq<Place>, next: nat, texts: Texts)
    requires forall p | p in zs :: HasLine(texts, p)
    ensures AllDistinct(zs, next, texts) <==>
            forall p, k: nat, m: nat | p in zs && Slot(LineAt(texts, p), k) && Slot(LineAt(texts, p), m) :: k == m
  {
    forall p, q, k: nat, m: nat | p in zs && q in zs && Slot(LineAt(texts, p), k) && Slot(LineAt(texts, q), m)
      ensures SameNumber(Rewritten(zs, next, p, LineAt(texts, p)), k, Rewritten(zs, next, q, LineAt(texts, q)), m)
              <==> p == q
    {
      SameExactly(zs, next, p, LineAt(texts, p), k, q, LineAt(texts, q), m);
    }
  }

  /** A line with two numbers after parentheses, one of them another number than the zero: both get one code. */
  lemma TwoNumbersExample(zero: Digits, other: Digits, code: Digits)
    ensures var line := "(" + (zero + ("(" + (other + "")));
            && Numbers(line) == [Number(zero, true), Number(other, true)]
            && Numbers(Sub(line, code)) == [Number(code, true), Number(code, true)]
  {
    var rest := "(" + (other + "");
    var line := "(" + (zero + rest);
    MatchFirst("(", other, "");
    MatchFirst("(", zero, rest);
    SubNumbers(line, code);
    RecodedPair(Number(zero, true), Number(other, true), code);
  }

  lemma RecodedPair(a: Number, b: Number, code: Digits)
    requires a.afterParen && b.afterParen
    ensures Recoded([a] + ([b] + []), code) == [Number(code, true), Number(code, true)]
    ensures [a] + ([b] + []) == [a, b]
  {
    var ns := [a, b];
    assert [a] + ([b] + []) == ns;
    RecodedAt(ns, code, 0);
    RecodedAt(ns, code, 1);
    var r := Recoded(ns, code);
    assert |r| == 2 && r[0] == Number(code, true) && r[1] == Number(code, true);
  }

  /** A code that stands first on its line, its parenthesis on a line before, is never replaced. */
  lemma FirstOnItsLine(indent: string, code: Digits, rest: string, next: Digits)
    requires (forall i | 0 <= i < |indent| :: indent[i] in " \t") && (rest == [] || !IsDigit(rest[0]))
    ensures var line := indent + (code + rest);
            && Numbers(line) != [] && Numbers(line)[0] == Number(code, false)
            && Numbers(Sub(line, next)) != [] && Numbers(Sub(line, next))[0] == Number(code, false)
  {
    NothingBefore(indent, code + rest);
    DigitsFirst(code, rest, false);
    SubNumbers(indent + (code + rest), next);
  }

  lemma {:induction false} NothingBefore(indent: string, rest: string)
    requires forall i | 0 <= i < |indent| :: indent[i] in " \t"
    ensures Numbers(indent + rest) == Numbers(rest)
  {
    if indent == [] {
      assert indent + rest == rest;
    } else {
      FirstOff(indent, rest);
      OtherFirst(indent[0], indent[1..] + rest, false);
      NothingBefore(indent[1..], rest);
    }
  }

  // ---------- the repair

  /** The places, in order and with repeats, of the errors whose code is zero. */
  ghost function ZeroPlaces(locs: seq<Location>, errors: seq<nat>): seq<Place>
    requires forall k | 0 <= k < |errors| :: errors[k] < |locs|
  {
    if errors == [] then []
    else
      var last := locs[errors[|errors| - 1]];
      ZeroPlaces(locs, errors[..|errors| - 1]) + if IntOf(last.code) == 0 then [last.place] else []
  }

  lemma {:induction false} ZeroPlacesExactly(locs: seq<Location>, errors: seq<nat>, p: Place)
    requires forall k | 0 <= k < |errors| :: errors[k] < |locs|
    ensures p in ZeroPlaces(locs, errors) <==>
            exists i :: i in errors && IntOf(locs[i].code) == 0 && locs[i].place == p
  {
    if errors != [] {
      var l := |errors| - 1;
      ZeroPlacesExactly(locs, errors[..l], p);
      assert errors == errors[..l] + [errors[l]];
    }
  }

  /** Each error with a zero code is visited in its turn: after one visit for each such error before it. */
  lemma {:induction false} ZeroPlacesAt(locs: seq<Location>, errors: seq<nat>, k: nat)
    requires forall k | 0 <= k < |errors| :: errors[k] < |locs|
    requires k < |errors| && IntOf(locs[errors[k]].code) == 0
    ensures var zs, turn := ZeroPlaces(locs, errors), |ZeroPlaces(locs, errors[..k])|;
            turn < |zs| && zs[turn] == locs[errors[k]].place
  {
    var l := |errors| - 1;
    if k < l {
      ZeroPlacesAt(locs, errors[..l], k);
      assert errors[..l][..k] == errors[..k];
    }
  }

  // ---------- the text of a file

  /** The lines of the file f as the visits of zs mean to leave them. */
  ghost function Intended(zs: seq<Place>, next: nat, f: string, lines: seq<string>): (r: seq<string>)
    ensures |r| == |lines|
  {
    seq(|lines|, l requires 0 <= l < |lines| => Rewritten(zs, next, Place(f, l), lines[l]))
  }

  lemma IntendedStep(zs: seq<Place>, next: nat, f: string, lines: seq<string>, p: Place)
    ensures Intended(zs + [p], next, f, lines) ==
            if p.file == f then Recode(Intended(zs, next, f, lines), p.line, StrOf(next + |zs|))
            else Intended(zs, next, f, lines)
  {
    assert (zs + [p])[..|zs|] == zs;
  }

  lemma {:induction false} IntendedProper(zs: seq<Place>, next: nat, f: string, lines: seq<string>)
    requires Proper(lines)
    ensures Proper(Intended(zs, next, f, lines))
    ensures LastInSlot(Intended(zs, next, f, lines)) <==> LastInSlot(lines)
  {
    if zs == [] {
      assert Intended(zs, next, f, lines) == lines;
    } else {
      var front, p := zs[..|zs| - 1], zs[|zs| - 1];
      assert zs == front + [p];
      IntendedProper(front, next, f, lines);
      IntendedStep(front, next, f, lines, p);
      RecodeProper(Intended(front, next, f, lines), p.line, StrOf(next + |front|));
      RecodeKeepsSlot(Intended(front, next, f, lines), p.line, StrOf(next + |front|));
    }
  }

  /** No line of the file f gets shorter when it is visited for the first time. */
  ghost predicate Fits(zs: seq<Place>, next: nat, f: string, lines: seq<string>) {
    zs != [] ==>
      var front, p := zs[..|zs| - 1], zs[|zs| - 1];
      && Fits(front, next, f, lines)
      && (p.file == f && p.line < |lines| && p !in front ==>
            Gain(Numbers(lines[p.line]), StrOf(next + |front|)) >= 0)
  }

  lemma FitsStep(zs: seq<Place>, next: nat, f: string, lines: seq<string>, p: Place)
    ensures Fits(zs + [p], next, f, lines) <==>
            && Fits(zs, next, f, lines)
            && (p.file == f && p.line < |lines| && p !in zs ==>
                  Gain(Numbers(lines[p.line]), StrOf(next + |zs|)) >= 0)
  {
    assert (zs + [p])[..|zs|] == zs;
  }

  lemma {:induction false} StrLonger(m: nat, n: nat)
    requires m <= n
    ensures |StrOf(m)| <= |StrOf(n)|
  {
    if m >= 10 {
      StrLonger(m / 10, n / 10);
    }
  }

  lemma {:induction false} GainRecoded(ns: seq<Number>, a: Digits, b: Digits)
    requires |a| <= |b|
    ensures Gain(Recoded(ns, a), b) >= 0
  {
    if ns != [] {
      GainRecoded(ns[1..], a, b);
    }
  }

  /** A line that is visited again does not get shorter. */
  lemma RepeatGain(zs: seq<Place>, next: nat, p: Place, line: string)
    requires p in zs
    ensures Gain(Numbers(Rewritten(zs, next, p, line)), StrOf(next + |zs|)) >= 0
  {
    var v := RewrittenNumbers(zs, next, p, line);
    StrLonger(next + v, next + |zs|);
    GainRecoded(Numbers(line), StrOf(next + v), StrOf(next + |zs|));
  }

  /** What the visits leave behind the lines of the file f. */
  ghost function LeftBehind(zs: seq<Place>, next: nat, f: string, lines: seq<string>): Left {
    if zs == [] then Run(0)
    else
      var front, p := zs[..|zs| - 1], zs[|zs| - 1];
      var left, intended := LeftBehind(front, next, f, lines), Intended(front, next, f, lines);
      if p.file == f && p.line < |lines|
      then AfterVisit(left, intended, p.line, Gain(Numbers(intended[p.line]), StrOf(next + |front|)))
      else left
  }

  lemma {:induction false} LeftBehindStep(zs: seq<Place>, next: nat, f: string, lines: seq<string>, p: Place)
    ensures var left, intended := LeftBehind(zs, next, f, lines), Intended(zs, next, f, lines);
            LeftBehind(zs + [p], next, f, lines) ==
            if p.file == f && p.line < |lines|
            then AfterVisit(left, intended, p.line, Gain(Numbers(intended[p.line]), StrOf(next + |zs|)))
            else left
  {
    var all := zs + [p];
    assert all[..|all| - 1] == zs && all[|all| - 1] == p;
  }

  /** Nothing is left behind in the file f. */
  ghost predicate NothingLeft(zs: seq<Place>, next: nat, f: string, lines: seq<string>) {
    LeftBehind(zs, next, f, lines) == Run(0)
  }

  /**
    Nothing is left behind if no line gets shorter when it is first visited. Something is if
    one does, unless the file ends in a number after a parenthesis, which may swallow it.
   */
  lemma {:induction false} NothingLeftWhenFits(zs: seq<Place>, next: nat, f: string, lines: seq<string>)
    requires Proper(lines)
    ensures Fits(zs, next, f, lines) ==> NothingLeft(zs, next, f, lines)
    ensures !LastInSlot(lines) && !Fits(zs, next, f, lines) ==> LeftBehind(zs, next, f, lines) == Stuck
  {
    if zs != [] {
      var front, p := zs[..|zs| - 1], zs[|zs| - 1];
      assert zs == front + [p];
      NothingLeftWhenFits(front, next, f, lines);
      LeftBehindStep(front, next, f, lines, p);
      FitsStep(front, next, f, lines, p);
      if p.file == f && p.line < |lines| {
        GainNow(front, next, p, lines);
        IntendedProper(front, next, f, lines);
      }
    }
  }

  /**
    The text t of the file f, which was text, after the visits of zs: the intended lines,
    with what LeftBehind says behind them.
   */
  ghost predicate FileWritten(zs: seq<Place>, next: nat, f: string, text: string, t: string) {
    var lines := ReadLines(text);
    var intended := Intended(zs, next, f, lines);
    && Flat(intended) <= t
    && Leaves(LeftBehind(zs, next, f, lines), intended, t[|Flat(intended)|..])
  }

  /** The file is just its intended lines exactly when nothing is left behind. */
  lemma FileExactly(zs: seq<Place>, next: nat, f: string, text: string, t: string)
    requires FileWritten(zs, next, f, text, t)
    ensures t == Flat(Intended(zs, next, f, ReadLines(text))) <==> NothingLeft(zs, next, f, ReadLines(text))
    ensures Fits(zs, next, f, ReadLines(text)) ==> NothingLeft(zs, next, f, ReadLines(text))
    ensures !LastInSlot(ReadLines(text)) ==>
              (NothingLeft(zs, next, f, ReadLines(text)) <==> Fits(zs, next, f, ReadLines(text)))
  {
    var flat := Flat(Intended(zs, next, f, ReadLines(text)));
    assert t == flat + t[|flat|..];
    assert t[|flat|..] == [] <==> t == flat;
    ReadProper(text);
    NothingLeftWhenFits(zs, next, f, ReadLines(text));
  }

  lemma FileUnwritten(next: nat, f: string, text: string)
    ensures FileWritten([], next, f, text, text)
  {
    ReadProper(text);
    assert Intended([], next, f, ReadLines(text)) == ReadLines(text);
    assert text[|text|..] == [];
  }

  lemma FileElsewhere(zs: seq<Place>, next: nat, f: string, text: string, t: string, p: Place)
    requires FileWritten(zs, next, f, text, t) && p.file != f
    ensures FileWritten(zs + [p], next, f, text, t)
  {
    IntendedStep(zs, next, f, ReadLines(text), p);
    LeftBehindStep(zs, next, f, ReadLines(text), p);
  }

  lemma FileVisited(zs: seq<Place>, next: nat, text: string, t: string, p: Place)
    requires FileWritten(zs, next, p.file, text, t) && p.line < |ReadLines(t)|
    ensures FileWritten(zs + [p], next, p.file, text, Visit(t, p.line, StrOf(next + |zs|)))
    ensures p.line >= |ReadLines(text)| ==> !Fits(zs, next, p.file, ReadLines(text))
  {
    var lines := ReadLines(text);
    var intended := Intended(zs, next, p.file, lines);
    ReadProper(text);
    IntendedProper(zs, next, p.file, lines);
    IntendedStep(zs, next, p.file, lines, p);
    LeftBehindStep(zs, next, p.file, lines, p);
    NothingLeftWhenFits(zs, next, p.file, lines);
    var more := t[|Flat(intended)|..];
    assert t == Flat(intended) + more;
    var more' := VisitLeaves(LeftBehind(zs, next, p.file, lines), intended, more, p.line, StrOf(next + |zs|));
    var flat := Flat(Recode(intended, p.line, StrOf(next + |zs|)));
    assert (flat + more')[|flat|..] == more';
  }

  /** Whether a visit makes the line shorter is settled by the line at first. */
  lemma GainNow(zs: seq<Place>, next: nat, p: Place, lines: seq<string>)
    requires p.line < |lines|
    ensures Gain(Numbers(Intended(zs, next, p.file, lines)[p.line]), StrOf(next + |zs|)) >= 0 <==>
            p in zs || Gain(Numbers(lines[p.line]), StrOf(next + |zs|)) >= 0
  {
    if p in zs {
      RepeatGain(zs, next, p, lines[p.line]);
    } else {
      var v := RewrittenNumbers(zs, next, p, lines[p.line]);
    }
  }

  /** All files are as the visits of zs leave them. */
  ghost predicate Written(zs: seq<Place>, next: nat, texts: Texts, fixed: Texts) {
    fixed.Keys == texts.Keys && forall f | f in texts :: WrittenAt(zs, next, texts, fixed, f)
  }

  ghost predicate WrittenAt(zs: seq<Place>, next: nat, texts: Texts, fixed: Texts, f: string)
    requires f in texts && f in fixed
  {
    FileWritten(zs, next, f, texts[f], fixed[f])
  }

  /** Places without a line were visited only in text that was left behind. */
  ghost predicate OnlyLeftBehind(zs: seq<Place>, next: nat, texts: Texts) {
    forall p | p in zs :: HasOrLeftBehind(zs, next, texts, p)
  }

  ghost predicate HasOrLeftBehind(zs: seq<Place>, next: nat, texts: Texts, p: Place) {
    p.file in texts && (HasLine(texts, p) || !Fits(zs, next, p.file, ReadLines(texts[p.file])))
  }

  lemma FileStep(zs: seq<Place>, next: nat, f: string, text: string, t: string, p: Place, zs': seq<Place>, t': string)
    requires FileWritten(zs, next, f, text, t) && zs' == zs + [p]
    requires p.file == f ==> p.line < |ReadLines(t)| && t' == Visit(t, p.line, StrOf(next + |zs|))
    requires p.file != f ==> t' == t
    ensures FileWritten(zs', next, f, text, t')
  {
    if p.file == f {
      FileVisited(zs, next, text, t, p);
    } else {
      FileElsewhere(zs, next, f, text, t, p);
    }
  }

  lemma VisitOne(zs: seq<Place>, next: nat, texts: Texts, fixed: Texts, p: Place, code: Digits, t: string,
                 zs': seq<Place>, fixed': Texts)
    requires Written(zs, next, texts, fixed) && HasLine(fixed, p) && zs' == zs + [p]
    requires code == StrOf(next + |zs|) && t == Visit(fixed[p.file], p.line, code) && fixed' == fixed[p.file := t]
    ensures Written(zs', next, texts, fixed')
  {
    forall f | f in texts
      ensures WrittenAt(zs', next, texts, fixed', f)
    {
      assert WrittenAt(zs, next, texts, fixed, f);
      FileStep(zs, next, f, texts[f], fixed[f], p, zs', fixed'[f]);
    }
  }

  lemma VisitLeftBehind(zs: seq<Place>, next: nat, texts: Texts, fixed: Texts, p: Place, zs': seq<Place>)
    requires Written(zs, next, texts, fixed) && OnlyLeftBehind(zs, next, texts) && HasLine(fixed, p) && zs' == zs + [p]
    ensures OnlyLeftBehind(zs', next, texts)
  {
    assert WrittenAt(zs, next, texts, fixed, p.file);
    FileVisited(zs, next, texts[p.file], fixed[p.file], p);
    forall q | q in zs'
      ensures HasOrLeftBehind(zs', next, texts, q)
    {
      assert q in zs ==> HasOrLeftBehind(zs, next, texts, q);
      FitsStep(zs, next, q.file, ReadLines(texts[q.file]), p);
    }
  }

  /** A line that is there before the visits is there after them. */
  lemma LinesStay(zs: seq<Place>, next: nat, texts: Texts, fixed: Texts, p: Place)
    requires Written(zs, next, texts, fixed) && HasLine(texts, p)
    ensures HasLine(fixed, p)
    ensures Settled(zs, next, texts, p) ==> LineAt(fixed, p) == Rewritten(zs, next, p, LineAt(texts, p))
  {
    var lines := ReadLines(texts[p.file]);
    var intended := Intended(zs, next, p.file, lines);
    var t := fixed[p.file];
    assert WrittenAt(zs, next, texts, fixed, p.file);
    ReadProper(texts[p.file]);
    IntendedProper(zs, next, p.file, lines);
    var more := t[|Flat(intended)|..];
    assert t == Flat(intended) + more;
    ReadOver(intended, more, p.line);
    FileExactly(zs, next, p.file, texts[p.file], t);
    if NothingLeft(zs, next, p.file, lines) {
      ReadBack(intended);
    } else {
      var v := RewrittenNumbers(zs, next, p, lines[p.line]);
      AroundLine(lines[p.line]);
      AroundLine(intended[p.line]);
    }
  }

  /** The line ends in a newline, or nothing is left behind in its file. */
  ghost predicate Settled(zs: seq<Place>, next: nat, texts: Texts, p: Place)
    requires HasLine(texts, p)
  {
    Terminated(LineAt(texts, p)) || NothingLeft(zs, next, p.file, ReadLines(texts[p.file]))
  }

  /** The visits stopped before a place without a line. */
  ghost predicate StoppedEarly(zs: seq<Place>, next: nat, texts: Texts, fixed: Texts) {
    exists k :: 0 <= k < |zs| && !HasLine(texts, zs[k]) && Written(zs[..k], next, texts, fixed)
  }

  lemma StopHere(zs: seq<Place>, next: nat, texts: Texts, fixed: Texts, p: Place, all: seq<Place>)
    requires Written(zs, next, texts, fixed) && !HasLine(fixed, p) && p.file in texts && zs + [p] <= all
    ensures StoppedEarly(all, next, texts, fixed)
  {
    if HasLine(texts, p) {
      LinesStay(zs, next, texts, fixed, p);
    }
    assert all[|zs|] == p && all[..|zs|] == zs;
  }

  lemma NothingWritten(next: nat, texts: Texts)
    ensures Written([], next, texts, texts)
  {
    forall f | f in texts
      ensures WrittenAt([], next, texts, texts, f)
    {
      FileUnwritten(next, f, texts[f]);
    }
  }

  lemma ZeroPlacesNext(locs: seq<Location>, errors: seq<nat>, k: nat)
    requires k < |errors| && forall k | 0 <= k < |errors| :: errors[k] < |locs|
    ensures var loc, zs := locs[errors[k]], ZeroPlaces(locs, errors[..k]);
            ZeroPlaces(locs, errors[..k + 1]) == if IntOf(loc.code) == 0 then zs + [loc.place] else zs
  {
    assert errors[..k + 1][..k] == errors[..k];
  }

  /** The body of the loop of replaceBadCodes. */
  method VisitPlace(ghost zs: seq<Place>, ghost first: nat, ghost texts: Texts, fixed: Texts, p: Place, next: nat)
    returns (fixed': Texts)
    requires Written(zs, first, texts, fixed) && OnlyLeftBehind(zs, first, texts)
    requires HasLine(fixed, p) && next == first + |zs|
    ensures Written(zs + [p], first, texts, fixed') && OnlyLeftBehind(zs + [p], first, texts)
  {
    var code := StrOf(next);
    var t := Visit(fixed[p.file], p.line, code);
    fixed' := fixed[p.file := t];
    VisitOne(zs, first, texts, fixed, p, code, t, zs + [p], fixed');
    VisitLeftBehind(zs, first, texts, fixed, p, zs + [p]);
  }

  /**
    replaceBadCodes: nonzero errors are skipped, each zero error's line is visited with the
    next code. A line that is not there stops the loop; earlier visits are done by then.
   */
  method ReplaceBadCodes(locs: seq<Location>, texts: Texts, errors: seq<nat>, nextCode: nat)
    returns (ok: bool, fixed: Texts)
    requires forall k | 0 <= k < |errors| :: errors[k] < |locs|
    requires forall i | 0 <= i < |locs| :: locs[i].place.file in texts
    ensures ok ==> Written(ZeroPlaces(locs, errors), nextCode, texts, fixed)
    ensures ok ==> OnlyLeftBehind(ZeroPlaces(locs, errors), nextCode, texts)
    ensures !ok ==> StoppedEarly(ZeroPlaces(locs, errors), nextCode, texts, fixed)
  {
    fixed := texts;
    var next := nextCode;
    ghost var zs: seq<Place> := [];
    NothingWritten(nextCode, texts);
    for k := 0 to |errors|
      invariant zs == ZeroPlaces(locs, errors[..k]) && next == nextCode + |zs|
      invariant Written(zs, nextCode, texts, fixed) && OnlyLeftBehind(zs, nextCode, texts)
    {
      ZeroPlacesNext(locs, errors, k);
      var p := locs[errors[k]].place;
      if IntOf(locs[errors[k]].code) == 0 {
        if p.line >= |ReadLines(fixed[p.file])| {
          ZeroPlacesGrow(locs, errors, k + 1);
          StopHere(zs, nextCode, texts, fixed, p, ZeroPlaces(locs, errors));
          return false, fixed;
        }
        fixed := VisitPlace(zs, nextCode, texts, fixed, p, next);
        next := next + 1;
        zs := zs + [p];
      }
    }
    assert errors[..|errors|] == errors;
    ok := true;
  }

  lemma {:induction false} ZeroPlacesGrow(locs: seq<Location>, errors: seq<nat>, k: nat)
    requires k <= |errors| && forall k | 0 <= k < |errors| :: errors[k] < |locs|
    ensures ZeroPlaces(locs, errors[..k]) <= ZeroPlaces(locs, errors)
    decreases |errors|
  {
    if k < |errors| {
      var front := errors[..|errors| - 1];
      ZeroPlacesGrow(locs, front, k);
      assert front[..k] == errors[..k];
    } else {
      assert errors[..k] == errors;
    }
  }

  /** A location that the script sets out to repair: a code of value zero that is "0" or occurs again. */
  ghost predicate ToRepair(locs: seq<Location>, i: nat) {
    i < |locs| && IntOf(locs[i].code) == 0 && (locs[i].code == ZERO || Duplicated(Codes(locs), i))
  }

  /** A location to repair is at p. */
  ghost predicate VisitedFor(locs: seq<Location>, p: Place) {
    exists i: nat :: ToRepair(locs, i) && locs[i].place == p
  }

  /** The visited places are those of the locations to repair. */
  ghost predicate VisitsExactly(locs: seq<Location>, zs: seq<Place>) {
    && (forall i: nat | ToRepair(locs, i) :: locs[i].place in zs)
    && (forall p | p in zs :: VisitedFor(locs, p))
  }

  lemma ErrorsVisited(locs: seq<Location>, errors: seq<nat>)
    requires ErrorsOf(Codes(locs), ZERO, errors)
    ensures forall k | 0 <= k < |errors| :: errors[k] < |locs|
    ensures VisitsExactly(locs, ZeroPlaces(locs, errors))
  {
    forall i: nat
      ensures i in errors <==> i < |locs| && (Duplicated(Codes(locs), i) || locs[i].code == ZERO)
    {
      ErrorsExactly(Codes(locs), ZERO, errors, i);
    }
    assert forall k | 0 <= k < |errors| :: errors[k] in errors;
    var zs := ZeroPlaces(locs, errors);
    forall i: nat | ToRepair(locs, i)
      ensures locs[i].place in zs
    {
      ZeroPlacesExactly(locs, errors, locs[i].place);
    }
    forall p | p in zs
      ensures VisitedFor(locs, p)
    {
      ZeroPlacesExactly(locs, errors, p);
      var i :| i in errors && IntOf(locs[i].code) == 0 && locs[i].place == p;
      assert ToRepair(locs, i);
    }
  }

  /** The digits are a code above all that were collected. */
  ghost predicate Fresh(locs: seq<Location>, digits: Digits) {
    forall j | 0 <= j < |locs| :: IntOf(locs[j].code) < IntOf(digits)
  }

  /**
    The location gets a fresh code exactly when only spaces stand between a parenthesis of
    its line and its digits. Otherwise its code is still there.
   */
  ghost predicate RepairedExactly(locs: seq<Location>, loc: Location, line: string, line': string) {
    && loc.number < |Numbers(line)| == |Numbers(line')|
    && (Fresh(locs, Numbers(line')[loc.number].digits) <==> Numbers(line)[loc.number].afterParen)
    && (!Numbers(line)[loc.number].afterParen ==> Numbers(line')[loc.number].digits == loc.code)
  }

  lemma LocationRepaired(locs: seq<Location>, i: nat, zs: seq<Place>, next: nat, line: string)
    requires ToRepair(locs, i) && At(line, locs[i]) && locs[i].place in zs
    requires forall j | 0 <= j < |locs| :: IntOf(locs[j].code) < next
    ensures RepairedExactly(locs, locs[i], line, Rewritten(zs, next, locs[i].place, line))
  {
    var v := VisitedNumber(zs, next, locs[i].place, line, locs[i].number);
    IntOfStr(next + v);
  }

  /** Two replaced locations to repair get the same code exactly when they are on one line. */
  ghost predicate CodesApart(locs: seq<Location>, i: nat, j: nat, zs: seq<Place>, next: nat, texts: Texts)
    requires ToRepair(locs, i) && ToRepair(locs, j) && HasLine(texts, locs[i].place) && HasLine(texts, locs[j].place)
  {
    var p, q, k, m := locs[i].place, locs[j].place, locs[i].number, locs[j].number;
    Slot(LineAt(texts, p), k) && Slot(LineAt(texts, q), m) ==>
      (SameNumber(Rewritten(zs, next, p, LineAt(texts, p)), k, Rewritten(zs, next, q, LineAt(texts, q)), m) <==> p == q)
  }

  /**
    What the visits intend: a location to repair gets a fresh code exactly when it stands
    after a parenthesis on its own line, two such locations get the same code exactly when
    they are on one line, and nothing else changes.
   */
  ghost predicate Repairs(locs: seq<Location>, texts: Texts, zs: seq<Place>, next: nat) {
    && (forall i: nat | ToRepair(locs, i) && HasLine(texts, locs[i].place) ::
          var line := LineAt(texts, locs[i].place);
          RepairedExactly(locs, locs[i], line, Rewritten(zs, next, locs[i].place, line)))
    && (forall i: nat, j: nat | ToRepair(locs, i) && ToRepair(locs, j) &&
                                HasLine(texts, locs[i].place) && HasLine(texts, locs[j].place) ::
          CodesApart(locs, i, j, zs, next, texts))
    && (forall p | HasLine(texts, p) ::
          && Around(Rewritten(zs, next, p, LineAt(texts, p))) == Around(LineAt(texts, p))
          && (!VisitedFor(locs, p) ==> Rewritten(zs, next, p, LineAt(texts, p)) == LineAt(texts, p)))
  }

  lemma IntendedAll(locs: seq<Location>, texts: Texts, zs: seq<Place>, next: nat)
    requires Located(locs, texts) && VisitsExactly(locs, zs) && NextAbove(locs, next)
    ensures Repairs(locs, texts, zs, next)
  {
    forall i: nat | ToRepair(locs, i) && HasLine(texts, locs[i].place)
      ensures var line := LineAt(texts, locs[i].place);
              RepairedExactly(locs, locs[i], line, Rewritten(zs, next, locs[i].place, line))
    {
      LocationRepaired(locs, i, zs, next, LineAt(texts, locs[i].place));
    }
    forall i: nat, j: nat | ToRepair(locs, i) && ToRepair(locs, j) &&
                            HasLine(texts, locs[i].place) && HasLine(texts, locs[j].place)
      ensures CodesApart(locs, i, j, zs, next, texts)
    {
      var p, q, k, m := locs[i].place, locs[j].place, locs[i].number, locs[j].number;
      if Slot(LineAt(texts, p), k) && Slot(LineAt(texts, q), m) {
        SameExactly(zs, next, p, LineAt(texts, p), k, q, LineAt(texts, q), m);
      }
    }
    forall p | HasLine(texts, p)
      ensures Around(Rewritten(zs, next, p, LineAt(texts, p))) == Around(LineAt(texts, p))
      ensures p !in zs ==> Rewritten(zs, next, p, LineAt(texts, p)) == LineAt(texts, p)
    {
      var v := RewrittenNumbers(zs, next, p, LineAt(texts, p));
    }
  }

  /** A line that ends in a newline, or in a file where nothing is left behind, is read again as intended. */
  ghost predicate OnDisk(zs: seq<Place>, next: nat, texts: Texts, fixed: Texts) {
    forall p | HasLine(texts, p) && Settled(zs, next, texts, p) ::
      HasLine(fixed, p) && LineAt(fixed, p) == Rewritten(zs, next, p, LineAt(texts, p))
  }

  lemma AllOnDisk(zs: seq<Place>, next: nat, texts: Texts, fixed: Texts)
    requires Written(zs, next, texts, fixed)
    ensures OnDisk(zs, next, texts, fixed)
  {
    forall p | HasLine(texts, p) && Settled(zs, next, texts, p)
      ensures HasLine(fixed, p) && LineAt(fixed, p) == Rewritten(zs, next, p, LineAt(texts, p))
    {
      LinesStay(zs, next, texts, fixed, p);
    }
  }

  datatype FixResult = TypeError | Clean | IndexError(partial: Texts) | Fixed(texts: Texts)

  /** A file without visited lines is as it was. */
  ghost predicate OthersUntouched(zs: seq<Place>, texts: Texts, fixed: Texts) {
    fixed.Keys == texts.Keys && forall f | f in texts && (forall p | p in zs :: p.file != f) :: fixed[f] == texts[f]
  }

  lemma {:induction false} FileUntouched(zs: seq<Place>, next: nat, f: string, lines: seq<string>)
    requires forall p | p in zs :: p.file != f
    ensures Fits(zs, next, f, lines) && Intended(zs, next, f, lines) == lines
  {
    if zs == [] {
    } else {
      var front, p := zs[..|zs| - 1], zs[|zs| - 1];
      assert zs == front + [p];
      FileUntouched(front, next, f, lines);
      IntendedStep(front, next, f, lines, p);
      FitsStep(front, next, f, lines, p);
    }
  }

  lemma AllUntouched(zs: seq<Place>, next: nat, texts: Texts, fixed: Texts)
    requires Written(zs, next, texts, fixed)
    ensures OthersUntouched(zs, texts, fixed)
  {
    forall f | f in texts && (forall p | p in zs :: p.file != f)
      ensures fixed[f] == texts[f]
    {
      assert WrittenAt(zs, next, texts, fixed, f);
      FileUntouched(zs, next, f, ReadLines(texts[f]));
      FileExactly(zs, next, f, texts[f], fixed[f]);
      ReadProper(texts[f]);
    }
  }

  /** A location to repair names a line that does not exist. */
  ghost predicate LineMissing(locs: seq<Location>, texts: Texts) {
    exists i: nat :: ToRepair(locs, i) && !HasLine(texts, locs[i].place)
  }

  lemma StopMeans(locs: seq<Location>, zs: seq<Place>, next: nat, texts: Texts, fixed: Texts)
    requires VisitsExactly(locs, zs) && StoppedEarly(zs, next, texts, fixed)
    ensures LineMissing(locs, texts)
  {
    var k :| 0 <= k < |zs| && !HasLine(texts, zs[k]);
    assert VisitedFor(locs, zs[k]);
  }

  /** next is one above the highest code. */
  ghost predicate NextAbove(locs: seq<Location>, next: nat) {
    && (forall j | 0 <= j < |locs| :: IntOf(locs[j].code) < next)
    && (exists j :: 0 <= j < |locs| && IntOf(locs[j].code) + 1 == next)
  }

  lemma IsNextAbove(locs: seq<Location>, next: nat)
    requires forall i | 0 <= i < |Codes(locs)| :: IntOf(Codes(locs)[i]) < next
    requires exists i :: 0 <= i < |Codes(locs)| && IntOf(Codes(locs)[i]) + 1 == next
    ensures NextAbove(locs, next)
  {
    assert forall i | 0 <= i < |locs| :: Codes(locs)[i] == locs[i].code;
  }

  /**
    The script with --fix, with the errors, the lines that it visits, in order, and the first new code.
    The visits intend what Repairs says. What the files hold in the end is what FileWritten
    says, and lines are read again as intended where OnDisk says so. A line that does not
    exist stops the script, unless it is found in text that an earlier write left behind.
   */
  method Fix(locs: seq<Location>, texts: Texts)
    returns (r: FixResult, ghost errors: seq<nat>, ghost zs: seq<Place>, ghost next: nat)
    requires Located(locs, texts)
    ensures r.TypeError? <==> |locs| < 2
    ensures r.Clean? <==> |locs| >= 2 && ZERO !in Codes(locs) && Distinct(Codes(locs))
    ensures ErrorsOf(Codes(locs), ZERO, errors) && (forall k | 0 <= k < |errors| :: errors[k] < |locs|)
    ensures |locs| >= 2 ==> zs == ZeroPlaces(locs, errors) && VisitsExactly(locs, zs) && NextAbove(locs, next)
    ensures r.IndexError? ==> LineMissing(locs, texts) && StoppedEarly(zs, next, texts, r.partial)
    ensures |locs| >= 2 && !r.IndexError? ==> OnlyLeftBehind(zs, next, texts)
    ensures r.Fixed? ==> Written(zs, next, texts, r.texts)
    ensures r.Fixed? ==> OnDisk(zs, next, texts, r.texts) && OthersUntouched(zs, texts, r.texts)
    ensures |locs| >= 2 ==> Repairs(locs, texts, zs, next)
  {
    zs, next := [], 0;
    var bad := ReadErrorCodes(Codes(locs), ZERO);
    errors := bad;
    ErrorsVisited(locs, errors);
    var first := GetNextCode(Codes(locs));
    if first.TypeError? {
      return FixResult.TypeError, errors, zs, next;
    }
    NoErrorsExactly(Codes(locs), ZERO, errors);
    zs, next := ZeroPlaces(locs, errors), first.code;
    IsNextAbove(locs, next);
    IntendedAll(locs, texts, zs, next);
    if |bad| == 0 {
      return Clean, errors, zs, next;
    }
    var ok, fixed := ReplaceBadCodes(locs, texts, bad, first.code);
    if !ok {
      StopMeans(locs, zs, next, texts, fixed);
      return IndexError(fixed), errors, zs, next;
    }
    AllOnDisk(zs, next, texts, fixed);
    AllUntouched(zs, next, texts, fixed);
    return Fixed(fixed), errors, zs, next;
  }

  // ---------- when the files hold what was intended

  /** Every number after a parenthesis on a visited line of the file has at most so many digits. */
  ghost predicate ShortNumbers(zs: seq<Place>, f: string, lines: seq<string>, width: nat) {
    forall p, k: nat | p in zs && p.file == f && p.line < |lines| && Slot(lines[p.line], k) ::
      |Numbers(lines[p.line])[k].digits| <= width
  }

  lemma {:induction false} GainShort(ns: seq<Number>, code: Digits)
    requires forall k | 0 <= k < |ns| && ns[k].afterParen :: |ns[k].digits| <= |code|
    ensures Gain(ns, code) >= 0
  {
    if ns != [] {
      GainShort(ns[1..], code);
    }
  }

  /** Nothing gets shorter if no number to replace has more digits than the first new code. */
  lemma {:induction false} ShortNumbersFit(zs: seq<Place>, next: nat, f: string, lines: seq<string>)
    requires ShortNumbers(zs, f, lines, |StrOf(next)|)
    ensures Fits(zs, next, f, lines)
  {
    if zs != [] {
      var front, p := zs[..|zs| - 1], zs[|zs| - 1];
      assert zs == front + [p];
      ShortNumbersFit(front, next, f, lines);
      FitsStep(front, next, f, lines, p);
      if p.file == f && p.line < |lines| {
        StrLonger(next, next + |front|);
        assert forall k: nat | k < |Numbers(lines[p.line])| && Numbers(lines[p.line])[k].afterParen ::
            Slot(lines[p.line], k);
        GainShort(Numbers(lines[p.line]), StrOf(next + |front|));
      }
    }
  }
}
