/** Numbers in a line of source text, and the substitution that gives a line a new code. */
module CodeText {
  import opened FileText

  predicate IsDigit(c: char) {
    '0' <= c <= '9'
  }

  type Digits = s: string | s != [] && forall i | 0 <= i < |s| :: IsDigit(s[i]) witness "0"

  /** int(s) of a string of digits. */
  function IntOf(s: Digits): nat
    decreases |s|
  {
    var d := s[|s| - 1] as int - '0' as int;
    if |s| == 1 then d else 10 * IntOf(s[..|s| - 1]) + d
  }

  /** str(n) of a number. */
  function StrOf(n: nat): Digits {
    var last := ('0' as int + n % 10) as char;
    if n < 10 then [last] else StrOf(n / 10) + [last]
  }

  lemma {:induction false} IntOfStr(n: nat)
    ensures IntOf(StrOf(n)) == n
  {
    if n >= 10 {
      IntOfStr(n / 10);
      var s := StrOf(n);
      assert s[..|s| - 1] == StrOf(n / 10);
    }
  }

  // ---------- the numbers of a line

  /** How many spaces, or digits, s starts with. */
  function Spaces(s: string): (n: nat)
    ensures n <= |s| && (n < |s| ==> s[n] != ' ')
  {
    if s != [] && s[0] == ' ' then 1 + Spaces(s[1..]) else 0
  }

  function DigitRun(s: string): (n: nat)
    ensures n <= |s| && (n < |s| ==> !IsDigit(s[n])) && forall i | 0 <= i < n :: IsDigit(s[i])
  {
    if s != [] && IsDigit(s[0]) then 1 + DigitRun(s[1..]) else 0
  }

  /** A maximal run of digits, and whether only spaces stand between an opening parenthesis and it. */
  datatype Number = Number(digits: Digits, afterParen: bool)

  /** The numbers of s from left to right, where after says the same of the start of s. */
  function Numbers(s: string, after: bool := false): seq<Number>
    decreases |s|
  {
    if s == [] then []
    else if IsDigit(s[0]) then
      [Number(s[..DigitRun(s)], after)] + Numbers(s[DigitRun(s)..])
    else
      Numbers(s[1..], s[0] == '(' || (after && s[0] == ' '))
  }

  /** The text around the numbers: each number is replaced by one digit. */
  function Around(s: string): string
    decreases |s|
  {
    if s == [] then []
    else if IsDigit(s[0]) then ['0'] + Around(s[DigitRun(s)..])
    else [s[0]] + Around(s[1..])
  }

  /** The text ends in the digits of a number after a parenthesis. */
  function EndsInSlot(s: string, after: bool := false): bool
    decreases |s|
  {
    if s == [] then false
    else if IsDigit(s[0]) then
      if DigitRun(s) == |s| then after else EndsInSlot(s[DigitRun(s)..])
    else
      EndsInSlot(s[1..], s[0] == '(' || (after && s[0] == ' '))
  }

  // ---------- the substitution

  /** The pattern of the substitution, a parenthesis with spaces and digits, matches at the start of s. */
  predicate Matches(s: string) {
    s != [] && s[0] == '(' && var j := 1 + Spaces(s[1..]); j < |s| && IsDigit(s[j])
  }

  /** re.sub: the digits of every match, from left to right, become the code. */
  function Sub(s: string, code: Digits): string
    decreases |s|
  {
    if s == [] then []
    else if Matches(s) then
      var j := 1 + Spaces(s[1..]);
      s[..j] + (code + Sub(s[j..][DigitRun(s[j..])..], code))
    else
      [s[0]] + Sub(s[1..], code)
  }

  /** What the substitution does to the numbers of a line. */
  function Recoded(ns: seq<Number>, code: Digits): seq<Number> {
    if ns == [] then []
    else [if ns[0].afterParen then ns[0].(digits := code) else ns[0]] + Recoded(ns[1..], code)
  }

  ghost predicate AllSpaces(s: string) {
    forall i | 0 <= i < |s| :: s[i] == ' '
  }

  /** A parenthesis and spaces. */
  ghost predicate Opens(head: string) {
    head != [] && head[0] == '(' && AllSpaces(head[1..])
  }

  /** By how much the recoded numbers are longer together. */
  function Gain(ns: seq<Number>, code: Digits): int {
    if ns == [] then 0
    else (if ns[0].afterParen then |code| - |ns[0].digits| else 0) + Gain(ns[1..], code)
  }

  lemma FirstOff(s: string, t: string)
    requires s != []
    ensures s + t == [s[0]] + (s[1..] + t)
  {
  }

  lemma {:induction false} DigitRunAppend(d: string, t: string)
    requires (forall i | 0 <= i < |d| :: IsDigit(d[i])) && (t == [] || !IsDigit(t[0]))
    ensures DigitRun(d + t) == |d|
  {
    if d == [] {
      assert d + t == t;
    } else {
      DigitRunAppend(d[1..], t);
      var s := d + t;
      assert s[0] == d[0] && s[1..] == d[1..] + t;
    }
  }

  lemma {:induction false} SpacesAppend(gap: string, t: string)
    requires AllSpaces(gap) && (t == [] || t[0] != ' ')
    ensures Spaces(gap + t) == |gap|
  {
    if gap == [] {
      assert gap + t == t;
    } else {
      SpacesAppend(gap[1..], t);
      var s := gap + t;
      assert s[0] == ' ' && s[1..] == gap[1..] + t;
    }
  }

  /** The substitution changes neither the leading spaces of a text nor what follows them. */
  lemma {:induction false} LeadKept(s: string, code: Digits)
    ensures Spaces(Sub(s, code)) == Spaces(s)
    ensures |Sub(s, code)| > Spaces(s) <==> |s| > Spaces(s)
    ensures |s| > Spaces(s) ==> Sub(s, code)[Spaces(s)] == s[Spaces(s)]
  {
    if s != [] && s[0] == ' ' {
      LeadKept(s[1..], code);
      assert Sub(s, code)[1..] == Sub(s[1..], code);
    }
  }

  /** Where no digits follow the leading spaces, a parenthesis before them makes no difference. */
  lemma {:induction false} AfterNothing(s: string)
    requires |s| > Spaces(s) ==> !IsDigit(s[Spaces(s)])
    ensures Numbers(s, true) == Numbers(s, false) && EndsInSlot(s, true) == EndsInSlot(s, false)
  {
    if s != [] && s[0] == ' ' {
      AfterNothing(s[1..]);
    }
  }

  /** Digits at the start of a text are its first number. */
  lemma DigitsFirst(d: Digits, rest: string, after: bool)
    requires rest == [] || !IsDigit(rest[0])
    ensures Numbers(d + rest, after) == [Number(d, after)] + Numbers(rest)
    ensures Around(d + rest) == ['0'] + Around(rest)
    ensures EndsInSlot(d + rest, after) == if rest == [] then after else EndsInSlot(rest)
  {
    DigitRunAppend(d, rest);
    var t := d + rest;
    assert t[0] == d[0] && t[..|d|] == d && t[|d|..] == rest;
  }

  lemma OtherFirst(c: char, rest: string, after: bool)
    requires !IsDigit(c)
    ensures Numbers([c] + rest, after) == Numbers(rest, c == '(' || (after && c == ' '))
    ensures Around([c] + rest) == [c] + Around(rest)
    ensures EndsInSlot([c] + rest, after) == EndsInSlot(rest, c == '(' || (after && c == ' '))
  {
    var t := [c] + rest;
    assert t[0] == c && t[1..] == rest;
  }

  lemma {:induction false} AfterSpaces(gap: string, rest: string)
    requires AllSpaces(gap)
    ensures Numbers(gap + rest, true) == Numbers(rest, true)
    ensures Around(gap + rest) == gap + Around(rest)
    ensures EndsInSlot(gap + rest, true) == EndsInSlot(rest, true)
  {
    if gap == [] {
      assert gap + rest == rest;
    } else {
      FirstOff(gap, rest);
      FirstOff(gap, Around(rest));
      AfterSpaces(gap[1..], rest);
      OtherFirst(' ', gap[1..] + rest, true);
    }
  }

  /** A match at the start of a text gives its first number. */
  lemma MatchFirst(head: string, d: Digits, rest: string)
    requires Opens(head) && (rest == [] || !IsDigit(rest[0]))
    ensures Numbers(head + (d + rest)) == [Number(d, true)] + Numbers(rest)
    ensures Around(head + (d + rest)) == head + (['0'] + Around(rest))
    ensures EndsInSlot(head + (d + rest)) == (rest == [] || EndsInSlot(rest))
  {
    var tail := d + rest;
    FirstOff(head, tail);
    FirstOff(head, Around(tail));
    OtherFirst('(', head[1..] + tail, false);
    AfterSpaces(head[1..], tail);
    DigitsFirst(d, rest, true);
  }

  lemma MatchAt(head: string, tail: string)
    requires Opens(head) && tail != [] && IsDigit(tail[0])
    ensures var s := head + tail;
            Matches(s) && 1 + Spaces(s[1..]) == |head| && s[..|head|] == head && s[|head|..] == tail
  {
    var s := head + tail;
    SpacesAppend(head[1..], tail);
    assert s[1..] == head[1..] + tail;
    assert s[|head|] == tail[0];
  }

  /** The substitution at a match. */
  lemma SubMatch(head: string, d: Digits, rest: string, code: Digits)
    requires Opens(head) && (rest == [] || !IsDigit(rest[0]))
    ensures Matches(head + (d + rest)) && Sub(head + (d + rest), code) == head + (code + Sub(rest, code))
  {
    var tail := d + rest;
    MatchAt(head, tail);
    DigitRunAppend(d, rest);
    assert tail[|d|..] == rest;
  }

  /** The parts of a text at whose start the pattern matches. */
  lemma MatchParts(s: string) returns (head: string, d: Digits, rest: string)
    requires Matches(s)
    ensures Opens(head) && (rest == [] || !IsDigit(rest[0])) && |rest| < |s|
    ensures s == head + (d + rest)
  {
    var j := 1 + Spaces(s[1..]);
    SpacesAre(s[1..]);
    head := s[..j];
    var tail := s[j..];
    d, rest := tail[..DigitRun(tail)], tail[DigitRun(tail)..];
    assert forall i | 0 <= i < |head[1..]| :: head[1..][i] == s[1..][i];
    assert d + rest == tail;
  }

  lemma {:induction false} SpacesAre(s: string)
    ensures forall i | 0 <= i < Spaces(s) :: s[i] == ' '
  {
    if s != [] && s[0] == ' ' {
      SpacesAre(s[1..]);
    }
  }

  /** On the numbers of a line the substitution recodes exactly those that follow a parenthesis; the rest is kept. */
  lemma {:induction false} SubNumbers(s: string, code: Digits)
    ensures Numbers(Sub(s, code)) == Recoded(Numbers(s), code)
    ensures Around(Sub(s, code)) == Around(s)
    ensures |Sub(s, code)| == |s| + Gain(Numbers(s), code)
    ensures EndsInSlot(Sub(s, code)) == EndsInSlot(s)
    decreases |s|
  {
    if s == [] {
    } else if Matches(s) {
      SubNumbersMatch(s, code);
    } else if IsDigit(s[0]) {
      SubNumbersDigits(s, code);
    } else {
      SubNumbers(s[1..], code);
      var t := Sub(s, code);
      assert t[1..] == Sub(s[1..], code);
      LeadKept(s[1..], code);
      if s[0] == '(' {
        AfterNothing(s[1..]);
        AfterNothing(t[1..]);
      }
    }
  }

  lemma {:induction false} SubNumbersMatch(s: string, code: Digits)
    requires Matches(s)
    ensures Numbers(Sub(s, code)) == Recoded(Numbers(s), code)
    ensures Around(Sub(s, code)) == Around(s)
    ensures |Sub(s, code)| == |s| + Gain(Numbers(s), code)
    ensures EndsInSlot(Sub(s, code)) == EndsInSlot(s)
    decreases |s|, 0
  {
    var head, d, rest := MatchParts(s);
    SubMatch(head, d, rest, code);
    MatchFirst(head, d, rest);
    SubNumbers(rest, code);
    LeadKept(rest, code);
    MatchFirst(head, code, Sub(rest, code));
  }

  lemma {:induction false} SubNumbersDigits(s: string, code: Digits)
    requires s != [] && IsDigit(s[0])
    ensures Numbers(Sub(s, code)) == Recoded(Numbers(s), code)
    ensures Around(Sub(s, code)) == Around(s)
    ensures |Sub(s, code)| == |s| + Gain(Numbers(s), code)
    ensures EndsInSlot(Sub(s, code)) == EndsInSlot(s)
    decreases |s|, 0
  {
    var n := DigitRun(s);
    var d: Digits, rest := s[..n], s[n..];
    assert s == d + rest;
    SubDigits(d, rest, code);
    DigitsFirst(d, rest, false);
    SubNumbers(rest, code);
    LeadKept(rest, code);
    DigitsFirst(d, Sub(rest, code), false);
  }

  lemma {:induction false} SubDigits(d: string, rest: string, code: Digits)
    requires forall i | 0 <= i < |d| :: IsDigit(d[i])
    ensures Sub(d + rest, code) == d + Sub(rest, code)
  {
    if d == [] {
      assert d + rest == rest && d + Sub(rest, code) == Sub(rest, code);
    } else {
      FirstOff(d, rest);
      FirstOff(d, Sub(rest, code));
      SubDigits(d[1..], rest, code);
      SubOther(d[0], d[1..] + rest, code);
    }
  }

  lemma SubOther(c: char, rest: string, code: Digits)
    requires c != '('
    ensures Sub([c] + rest, code) == [c] + Sub(rest, code)
  {
    var t := [c] + rest;
    assert t[0] == c && t[1..] == rest;
  }

  /** How many characters of s are no digits. */
  function NonDigits(s: string): nat {
    if s == [] then 0 else (if IsDigit(s[0]) then 0 else 1) + NonDigits(s[1..])
  }

  lemma {:induction false} NonDigitsJoin(a: string, b: string)
    ensures NonDigits(a + b) == NonDigits(a) + NonDigits(b)
  {
    if a == [] {
      assert a + b == b;
    } else {
      NonDigitsJoin(a[1..], b);
      var t := a + b;
      assert t[0] == a[0] && t[1..] == a[1..] + b;
    }
  }

  lemma {:induction false} AllDigits(s: string)
    ensures NonDigits(s) == 0 <==> forall i | 0 <= i < |s| :: IsDigit(s[i])
    ensures NonDigits(s) == 0 ==> DigitRun(s) == |s|
  {
    if s != [] {
      AllDigits(s[1..]);
      assert forall i | 0 < i < |s| :: s[i] == s[1..][i - 1];
    }
  }

  lemma {:induction false} NonDigitsAround(s: string)
    ensures NonDigits(Around(s)) == NonDigits(s)
    decreases |s|
  {
    if s != [] {
      if IsDigit(s[0]) {
        var n := DigitRun(s);
        NonDigitsAround(s[n..]);
        NonDigitsJoin(s[..n], s[n..]);
        assert s == s[..n] + s[n..];
        AllDigits(s[..n]);
        NonDigitsJoin(['0'], Around(s[n..]));
        AllDigits(['0']);
      } else {
        NonDigitsAround(s[1..]);
        assert Around(s)[1..] == Around(s[1..]);
      }
    }
  }

  lemma NonDigitsSub(s: string, code: Digits)
    ensures NonDigits(Sub(s, code)) == NonDigits(s)
  {
    SubNumbers(s, code);
    NonDigitsAround(s);
    NonDigitsAround(Sub(s, code));
  }

  /** How many digits s ends in. */
  function EndRun(s: string): (n: nat)
    ensures n <= |s|
  {
    if s != [] && IsDigit(s[|s| - 1]) then 1 + EndRun(s[..|s| - 1]) else 0
  }

  lemma {:induction false} EndRunJoin(a: string, b: string)
    requires NonDigits(b) == 0
    ensures EndRun(a + b) == EndRun(a) + |b|
    decreases |b|
  {
    if b == [] {
      assert a + b == a;
    } else {
      var front := b[..|b| - 1];
      AllDigits(b);
      AllDigits(front);
      EndRunJoin(a, front);
      assert (a + b)[..|a + b| - 1] == a + front;
    }
  }

  /** The last k characters are digits exactly when the text ends in that many. */
  lemma {:induction false} EndRunExactly(s: string, k: nat)
    requires k <= |s|
    ensures NonDigits(s[|s| - k..]) == 0 <==> k <= EndRun(s)
  {
    if k > 0 {
      var l := |s| - 1;
      EndRunExactly(s[..l], k - 1);
      var tail, front := s[|s| - k..], s[..l][l - (k - 1)..];
      assert tail == front + [s[l]];
      NonDigitsJoin(front, [s[l]]);
      if !IsDigit(s[l]) {
        assert NonDigits([s[l]]) == 1 by { assert [s[l]][1..] == []; }
      } else {
        AllDigits([s[l]]);
      }
    }
  }

  lemma {:induction false} EndsInDigit(s: string, after: bool)
    requires EndsInSlot(s, after)
    ensures s != [] && IsDigit(s[|s| - 1])
    decreases |s|
  {
    if IsDigit(s[0]) {
      if DigitRun(s) < |s| {
        EndsInDigit(s[DigitRun(s)..], false);
      }
    } else {
      EndsInDigit(s[1..], s[0] == '(' || (after && s[0] == ' '));
    }
  }

  // ---------- the substitution on a longer text

  lemma JoinTwo(a: string, b: string, c: string)
    ensures a + (b + c) == a + b + c
  {
  }

  lemma JoinThree(a: string, b: string, c: string, d: string)
    ensures a + (b + c + d) == a + b + (c + d)
  {
  }

  lemma JoinFour(a: string, b: string, c: string, d: string)
    ensures a + (b + (c + d)) == a + (b + c) + d
  {
  }

  lemma SubNonempty(s: string, code: Digits)
    ensures Sub(s, code) == [] <==> s == []
  {
  }

  /** After a match the substitution goes on with what follows the digits. */
  lemma {:induction false} SubAppendMatch(head: string, d: Digits, b: string, code: Digits) returns (more: string)
    requires Opens(head)
    ensures Sub(head + d, code) == head + code && Sub(head + d + b, code) == head + code + more
    ensures DigitRun(b) == |b| ==> more == []
  {
    var n := DigitRun(b);
    var longer: Digits, rest := d + b[..n], b[n..];
    SubMatch(head, d, [], code);
    SubMatch(head, longer, rest, code);
    more := Sub(rest, code);
    assert d + [] == d && code + Sub([], code) == code;
    assert b == b[..n] + rest;
    JoinThree(head, d, b[..n], rest);
    JoinTwo(head, d, b);
    JoinTwo(head, code, more);
  }

  lemma {:induction false} SubSpaces(gap: string, b: string, code: Digits)
    requires AllSpaces(gap)
    ensures Sub(gap + b, code) == gap + Sub(b, code)
  {
    if gap == [] {
      assert gap + b == b && gap + Sub(b, code) == Sub(b, code);
    } else {
      FirstOff(gap, b);
      FirstOff(gap, Sub(b, code));
      SubSpaces(gap[1..], b, code);
      SubOther(' ', gap[1..] + b, code);
    }
  }

  lemma SubParen(rest: string, code: Digits)
    requires !Matches(['('] + rest)
    ensures Sub(['('] + rest, code) == ['('] + Sub(rest, code)
  {
    var t := ['('] + rest;
    assert t[0] == '(' && t[1..] == rest;
  }

  /** A parenthesis and spaces alone are kept, whatever follows. */
  lemma SubAppendOpens(a: string, b: string, code: Digits) returns (more: string)
    requires Opens(a)
    ensures Sub(a, code) == a && Sub(a + b, code) == a + more && (b == [] <==> more == [])
    ensures !EndsInSlot(a)
  {
    OpensAlone(a, code);
    assert b == [] ==> a + b == a;
    if Matches(a + b) {
      more := OpensThenMatch(a, a + b, code);
    } else {
      FirstOff(a, b);
      SubParen(a[1..] + b, code);
      SubSpaces(a[1..], b, code);
      more := Sub(b, code);
      FirstOff(a, more);
      SubNonempty(b, code);
    }
  }

  lemma OpensAlone(a: string, code: Digits)
    requires Opens(a)
    ensures Sub(a, code) == a && !Matches(a) && !EndsInSlot(a)
  {
    OtherFirst('(', a[1..], false);
    AfterSpaces(a[1..], []);
    SpacesAppend(a[1..], []);
    assert a[1..] + [] == a[1..] && a == ['('] + a[1..];
    SubSpaces(a[1..], [], code);
    SubParen(a[1..], code);
  }

  lemma OpensThenMatch(a: string, t: string, code: Digits) returns (more: string)
    requires Opens(a) && a <= t && Matches(t)
    ensures Sub(t, code) == a + more && more != []
  {
    var head, d, rest := MatchParts(t);
    SubMatch(head, d, rest, code);
    HeadCovers(a, t[|a|..], head, d + rest);
    var gap, tail := head[|a|..], code + Sub(rest, code);
    more := gap + tail;
    assert head == a + gap;
    JoinTwo(a, gap, tail);
  }

  lemma HeadCovers(a: string, b: string, head: string, tail: string)
    requires Opens(a) && Opens(head) && tail != [] && IsDigit(tail[0]) && a + b == head + tail
    ensures |a| <= |head| && head[..|a|] == a
  {
    var t := a + b;
    assert t[|head|] == tail[0];
    assert forall i | 1 <= i < |a| :: t[i] == a[1..][i - 1];
    assert (a + b)[..|a|] == a && (head + tail)[..|a|] == head[..|a|];
  }

  /** A parenthesis that starts no match starts none in a longer text either, unless only spaces follow it. */
  lemma {:induction false} StaysUnmatched(a: string, b: string)
    requires a != [] && a[0] == '(' && !Matches(a)
    ensures Opens(a) || !Matches(a + b)
    ensures Opens(a) || EndsInSlot(a) == EndsInSlot(a[1..])
  {
    var u := a[1..];
    var j := Spaces(u);
    SpacesAre(u);
    if j == |u| {
      assert Opens(a);
    } else {
      assert a[1 + j] == u[j];
      SpacesAppend(u[..j], u[j..] + b);
      assert (a + b)[1..] == u[..j] + (u[j..] + b);
      assert (a + b)[1 + j] == u[j];
      AfterNothing(u);
    }
  }

  /**
    On a longer text the substitution starts with what it makes of the start. What follows
    is nothing only if nothing follows, or if it runs into a number after a parenthesis.
   */
  lemma {:induction false} SubAppend(a: string, b: string, code: Digits) returns (more: string)
    ensures Sub(a + b, code) == Sub(a, code) + more
    ensures b == [] || (EndsInSlot(a) && DigitRun(b) == |b|) ==> more == []
    ensures b != [] && !EndsInSlot(a) ==> more != []
    decreases |a|
  {
    if a == [] {
      assert a + b == b;
      more := Sub(b, code);
      SubNonempty(b, code);
    } else if Matches(a) {
      more := SubAppendAtMatch(a, b, code);
    } else if IsDigit(a[0]) {
      more := SubAppendAtDigits(a, b, code);
    } else if Opens(a) {
      more := SubAppendOpens(a, b, code);
    } else {
      var rest := a[1..];
      more := SubAppend(rest, b, code);
      FirstOff(a, b);
      assert a == [a[0]] + rest;
      if a[0] == '(' {
        StaysUnmatched(a, b);
        SubParen(rest + b, code);
        SubParen(rest, code);
      } else {
        SubOther(a[0], rest + b, code);
        SubOther(a[0], rest, code);
        OtherFirst(a[0], rest, false);
      }
      JoinTwo([a[0]], Sub(rest, code), more);
    }
  }

  lemma {:induction false} SubAppendAtMatch(a: string, b: string, code: Digits) returns (more: string)
    requires Matches(a)
    ensures Sub(a + b, code) == Sub(a, code) + more
    ensures b == [] || (EndsInSlot(a) && DigitRun(b) == |b|) ==> more == []
    ensures b != [] && !EndsInSlot(a) ==> more != []
    decreases |a|, 0
  {
    var head, d, rest := MatchParts(a);
    MatchFirst(head, d, rest);
    if rest == [] {
      more := SubAppendMatch(head, d, b, code);
      assert a == head + d;
    } else {
      more := SubAppend(rest, b, code);
      SubMatch(head, d, rest, code);
      SubMatch(head, d, rest + b, code);
      JoinFour(head, d, rest, b);
      JoinFour(head, code, Sub(rest, code), more);
    }
  }

  lemma {:induction false} SubAppendAtDigits(a: string, b: string, code: Digits) returns (more: string)
    requires a != [] && IsDigit(a[0])
    ensures Sub(a + b, code) == Sub(a, code) + more
    ensures b == [] || (EndsInSlot(a) && DigitRun(b) == |b|) ==> more == []
    ensures b != [] && !EndsInSlot(a) ==> more != []
    decreases |a|, 0
  {
    var n := DigitRun(a);
    var d: Digits, rest := a[..n], a[n..];
    assert a == d + rest;
    JoinTwo(d, rest, b);
    DigitsFirst(d, rest, false);
    more := SubAppend(rest, b, code);
    SubDigits(d, rest, code);
    SubDigits(d, rest + b, code);
    JoinTwo(d, Sub(rest, code), more);
  }
}
