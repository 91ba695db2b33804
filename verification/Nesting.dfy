/**
  The linter's nesting stack across preprocessor conditionals, on values: what each line
  does to the stack and to the checkpoints, and what a whole file leaves behind.
 */
module Nesting {
  import opened Seqs

  /** The preprocessor directive of a line; elif counts as else. */
  datatype Directive = If | Else | Endif | Other

  /** The nesting stacks saved at an #if, and at its first #else. */
  datatype Checkpoint<B> = Checkpoint(beforeIf: seq<B>, beforeElse: seq<B>, seenElse: bool)

  datatype Nest<B> = Nest(stack: seq<B>, pp: seq<Checkpoint<B>>)

  /** A line: its directive, and what its text does to the stack afterwards. */
  datatype Line<!B> = Line(directive: Directive, effect: seq<B> -> seq<B>)

  /** Remember the stack, as it stands before the first #else, in the innermost checkpoint. */
  function SaveBeforeElse<B>(n: Nest<B>, saved: seq<B>): Nest<B>
    requires n.pp != []
  {
    n.(pp := Front(n.pp) + [Last(n.pp).(seenElse := true, beforeElse := saved)])
  }

  /** UpdatePreprocessor. */
  function Preprocess<B>(n: Nest<B>, d: Directive): Nest<B> {
    match d
    case If => n.(pp := n.pp + [Checkpoint(n.stack, [], false)])
    case Else =>
      if n.pp == [] then n
      else
        var m := if Last(n.pp).seenElse then n else SaveBeforeElse(n, n.stack);
        m.(stack := Last(m.pp).beforeIf)
    case Endif =>
      if n.pp == [] then n
      else Nest(if Last(n.pp).seenElse then Last(n.pp).beforeElse else n.stack, Front(n.pp))
    case Other => n
  }

  /** Update. */
  function Update<B>(n: Nest<B>, line: Line<B>): Nest<B> {
    var m := Preprocess(n, line.directive);
    m.(stack := line.effect(m.stack))
  }

  ghost function Run<B>(n: Nest<B>, lines: seq<Line<B>>): Nest<B>
    decreases |lines|
  {
    if lines == [] then n else Update(Run(n, Front(lines)), Last(lines))
  }

  // ---------- the reading of a file that looks at first branches only

  /** For each conditional that is open, outermost first: is it past its first branch? */
  ghost function Flags<B>(lines: seq<Line<B>>): seq<bool>
    decreases |lines|
  {
    if lines == [] then [] else NextFlags(Flags(Front(lines)), Last(lines).directive)
  }

  function NextFlags(flags: seq<bool>, d: Directive): seq<bool> {
    match d
    case If => flags + [false]
    case Else => if flags == [] then [] else Front(flags) + [true]
    case Endif => if flags == [] then [] else Front(flags)
    case Other => flags
  }

  ghost predicate InFirstBranches(flags: seq<bool>) {
    forall i | 0 <= i < |flags| :: !flags[i]
  }

  /** The stack that results from the lines in first branches alone, all others being dropped. */
  ghost function FirstBranchesOnly<B>(s: seq<B>, lines: seq<Line<B>>): seq<B>
    decreases |lines|
  {
    if lines == [] then s
    else
      var before := FirstBranchesOnly(s, Front(lines));
      if InFirstBranches(Flags(lines)) then Last(lines).effect(before) else before
  }

  lemma FirstBranchesLast<B>(s: seq<B>, lines: seq<Line<B>>, front: seq<Line<B>>, last: Line<B>)
    requires lines == front + [last]
    ensures FirstBranchesOnly(s, lines) ==
            if InFirstBranches(Flags(lines)) then last.effect(FirstBranchesOnly(s, front))
            else FirstBranchesOnly(s, front)
  {
    assert Front(lines) == front;
  }

  // ---------- the invariant

  /** Outside first branches, the outermost checkpoint past its #else holds the kept stack. */
  ghost predicate Tracks<B>(n: Nest<B>, flags: seq<bool>, kept: seq<B>) {
    && |n.pp| == |flags|
    && (forall i | 0 <= i < |flags| :: n.pp[i].seenElse == flags[i])
    && (InFirstBranches(flags) ==> n.stack == kept)
    && (forall i | 0 <= i < |flags| && flags[i] && InFirstBranches(flags[..i]) :: n.pp[i].beforeElse == kept)
  }

  lemma PreprocessTracks<B>(n: Nest<B>, flags: seq<bool>, kept: seq<B>, d: Directive)
    requires Tracks(n, flags, kept)
    ensures Tracks(Preprocess(n, d), NextFlags(flags, d), kept)
  {
    var m, next := Preprocess(n, d), NextFlags(flags, d);
    if flags != [] {
      var l := |flags| - 1;
      assert Front(flags) == flags[..l];
      forall i | 0 <= i < |next| && next[i] && InFirstBranches(next[..i])
        ensures m.pp[i].beforeElse == kept
      {
        if i < |flags| {
          assert next[..i] == flags[..i];
          if i == l && !flags[l] {
            assert InFirstBranches(flags);
          }
        }
      }
      assert d.Else? ==> next[l];
      if InFirstBranches(next) {
        if d.If? {
          assert forall i | 0 <= i < |flags| :: next[i] == flags[i];
        }
        if d.Endif? && !flags[l] {
          assert InFirstBranches(flags);
        }
      }
    }
  }

  lemma {:induction false} RunTracks<B>(s: seq<B>, lines: seq<Line<B>>)
    ensures Tracks(Run(Nest(s, []), lines), Flags(lines), FirstBranchesOnly(s, lines))
  {
    if lines != [] {
      RunTracks(s, Front(lines));
      PreprocessTracks(Run(Nest(s, []), Front(lines)), Flags(Front(lines)),
                       FirstBranchesOnly(s, Front(lines)), Last(lines).directive);
    }
  }

  /**
    For every sequence of lines, well nested or not, and whatever the lines do to the
    stack: wherever every open conditional is in its first branch, the nesting stack is
    as if only first branches had been read; there are as many checkpoints as open
    conditionals.
   */
  lemma AsIfFirstBranches<B>(s: seq<B>, lines: seq<Line<B>>)
    ensures |Run(Nest(s, []), lines).pp| == |Flags(lines)|
    ensures InFirstBranches(Flags(lines)) ==> Run(Nest(s, []), lines).stack == FirstBranchesOnly(s, lines)
  {
    RunTracks(s, lines);
  }

  // ---------- well-nested stretches

  /** The directives lead from depth d to depth e, and belong to an open conditional on the way. */
  ghost predicate Nests<B>(lines: seq<Line<B>>, d: nat, e: nat)
    decreases |lines|
  {
    if lines == [] then d == e
    else
      match lines[0].directive
      case If => Nests(lines[1..], d + 1, e)
      case Else => d > 0 && Nests(lines[1..], d, e)
      case Endif => d > 0 && Nests(lines[1..], d - 1, e)
      case Other => Nests(lines[1..], d, e)
  }

  /** From depth d the directives never go below zero and come back to it at the end. */
  ghost predicate WellNested<B>(lines: seq<Line<B>>, d: nat) {
    Nests(lines, d, 0)
  }

  lemma {:induction false} RunFromFirst<B>(n: Nest<B>, lines: seq<Line<B>>)
    requires lines != []
    ensures Run(n, lines) == Run(Update(n, lines[0]), lines[1..])
  {
    if |lines| > 1 {
      RunFromFirst(n, Front(lines));
      assert Front(lines)[1..] == Front(lines[1..]);
      assert Last(lines[1..]) == Last(lines);
    }
  }

  lemma UpdateAbove<B>(base: seq<Checkpoint<B>>, n: Nest<B>, line: Line<B>)
    requires n.pp != [] || line.directive.If? || line.directive.Other?
    ensures var m := Update(n, line);
            Update(n.(pp := base + n.pp), line) == m.(pp := base + m.pp)
  {
    var n' := n.(pp := base + n.pp);
    if n.pp != [] {
      assert Last(n'.pp) == Last(n.pp);
      assert Front(n'.pp) == base + Front(n.pp);
    }
    match line.directive {
      case If => assert n'.pp + [Checkpoint(n.stack, [], false)] == base + (n.pp + [Checkpoint(n.stack, [], false)]);
      case Else =>
        var top := Last(n.pp).(seenElse := true, beforeElse := n.stack);
        assert Front(n'.pp) + [top] == base + (Front(n.pp) + [top]);
      case Endif =>
      case Other =>
    }
  }

  /** A well-nested stretch neither reads nor changes the checkpoints below its own. */
  lemma {:induction false} BaseUntouched<B>(base: seq<Checkpoint<B>>, n: Nest<B>, lines: seq<Line<B>>)
    requires WellNested(lines, |n.pp|)
    ensures Run(n, lines).pp == []
    ensures Run(n.(pp := base + n.pp), lines) == Nest(Run(n, lines).stack, base)
    decreases |lines|
  {
    if lines == [] {
      assert base + n.pp == base;
    } else {
      RunFromFirst(n, lines);
      RunFromFirst(n.(pp := base + n.pp), lines);
      UpdateAbove(base, n, lines[0]);
      BaseUntouched(base, Update(n, lines[0]), lines[1..]);
    }
  }

  /**
    Over a well-nested stretch, entered in any state, the checkpoints are back to what
    they were and the stack is as if only first branches had been read.
   */
  lemma WellNestedStretch<B>(n: Nest<B>, lines: seq<Line<B>>)
    requires WellNested(lines, 0)
    ensures Run(n, lines) == Nest(FirstBranchesOnly(n.stack, lines), n.pp)
  {
    var alone := Nest(n.stack, []);
    BaseUntouched(n.pp, alone, lines);
    assert n.pp + [] == n.pp;
    AsIfFirstBranches(n.stack, lines);
  }

  // ---------- inside the branches of open conditionals

  /** An open conditional: where its #if is, and where its current branch starts, at the #if or an #else. */
  datatype Branch = Branch(ifAt: nat, startAt: nat)

  /** The open conditionals after the lines, outermost first. */
  ghost function OpenBranches<B>(lines: seq<Line<B>>): seq<Branch>
    decreases |lines|
  {
    if lines == [] then []
    else NextBranches(OpenBranches(Front(lines)), Last(lines).directive, |lines| - 1)
  }

  function NextBranches(open: seq<Branch>, d: Directive, k: nat): seq<Branch> {
    match d
    case If => open + [Branch(k, k)]
    case Else => if open == [] then [] else Front(open) + [Branch(Last(open).ifAt, k)]
    case Endif => if open == [] then [] else Front(open)
    case Other => open
  }

  lemma {:induction false} NestsJoin<B>(a: seq<Line<B>>, b: seq<Line<B>>, d: nat, m: nat, e: nat)
    requires Nests(a, d, m) && Nests(b, m, e)
    ensures Nests(a + b, d, e)
    decreases |a|
  {
    if a == [] {
      assert a + b == b;
    } else {
      var t := a + b;
      assert t[0] == a[0] && t[1..] == a[1..] + b;
      match a[0].directive {
        case If => NestsJoin(a[1..], b, d + 1, m, e);
        case Else => NestsJoin(a[1..], b, d, m, e);
        case Endif => NestsJoin(a[1..], b, d - 1, m, e);
        case Other => NestsJoin(a[1..], b, d, m, e);
      }
    }
  }

  lemma {:induction false} NestsDeeper<B>(a: seq<Line<B>>, d: nat, e: nat)
    requires Nests(a, d, e)
    ensures Nests(a, d + 1, e + 1)
    decreases |a|
  {
    if a != [] {
      match a[0].directive {
        case If => NestsDeeper(a[1..], d + 1, e);
        case Else => NestsDeeper(a[1..], d, e);
        case Endif => NestsDeeper(a[1..], d - 1, e);
        case Other => NestsDeeper(a[1..], d, e);
      }
    }
  }

  lemma NestsOne<B>(line: Line<B>, d: nat, e: nat)
    requires match line.directive
             case If => e == d + 1
             case Else => d > 0 && e == d
             case Endif => d == e + 1
             case Other => e == d
    ensures Nests([line], d, e)
  {
    assert [line][1..] == [];
  }

  /** Its #if comes with the branch b at depth one, and the lines from there to end are well nested. */
  ghost predicate Spans<B>(lines: seq<Line<B>>, b: Branch, end: nat) {
    && b.ifAt <= b.startAt < end <= |lines|
    && lines[b.ifAt].directive.If? && (b.startAt == b.ifAt || lines[b.startAt].directive.Else?)
    && Nests(lines[b.ifAt..b.startAt + 1], 0, 1)
    && Nests(lines[b.startAt + 1..end], 0, 0)
  }

  /** The j-th branch goes on to the next #if that is open, or to the end. */
  ghost predicate SpanAt<B>(lines: seq<Line<B>>, open: seq<Branch>, j: nat)
    requires j < |open|
  {
    Spans(lines, open[j], if j + 1 < |open| then open[j + 1].ifAt else |lines|)
  }

  ghost predicate SpansAll<B>(lines: seq<Line<B>>, open: seq<Branch>) {
    forall j: nat | j < |open| :: SpanAt(lines, open, j)
  }

  lemma SpanStays<B>(lines: seq<Line<B>>, more: seq<Line<B>>, b: Branch, end: nat)
    requires Spans(lines, b, end) && lines <= more
    ensures Spans(more, b, end)
  {
    assert more[b.ifAt..b.startAt + 1] == lines[b.ifAt..b.startAt + 1];
    assert more[b.startAt + 1..end] == lines[b.startAt + 1..end];
  }

  lemma SpanLonger<B>(lines: seq<Line<B>>, b: Branch, end: nat, end': nat)
    requires Spans(lines, b, end) && end <= end' <= |lines| && Nests(lines[end..end'], 0, 0)
    ensures Spans(lines, b, end')
  {
    NestsJoin(lines[b.startAt + 1..end], lines[end..end'], 0, 0, 0);
    assert lines[b.startAt + 1..end'] == lines[b.startAt + 1..end] + lines[end..end'];
  }

  /** An #else keeps an open conditional at depth one, an #endif brings it to zero. */
  lemma SpanEnds<B>(lines: seq<Line<B>>, b: Branch, k: nat)
    requires k < |lines| && Spans(lines, b, k)
    ensures lines[k].directive.Else? ==> Nests(lines[b.ifAt..k + 1], 0, 1)
    ensures lines[k].directive.Endif? ==> Nests(lines[b.ifAt..k + 1], 0, 0)
  {
    NestsDeeper(lines[b.startAt + 1..k], 0, 0);
    NestsJoin(lines[b.ifAt..b.startAt + 1], lines[b.startAt + 1..k], 0, 1, 1);
    assert lines[b.ifAt..k] == lines[b.ifAt..b.startAt + 1] + lines[b.startAt + 1..k];
    assert lines[b.ifAt..k + 1] == lines[b.ifAt..k] + [lines[k]];
    if lines[k].directive.Else? {
      NestsOne(lines[k], 1, 1);
      NestsJoin(lines[b.ifAt..k], [lines[k]], 0, 1, 1);
    } else if lines[k].directive.Endif? {
      NestsOne(lines[k], 1, 0);
      NestsJoin(lines[b.ifAt..k], [lines[k]], 0, 1, 0);
    }
  }

  lemma SpanStarts<B>(lines: seq<Line<B>>, k: nat)
    requires |lines| == k + 1 && lines[k].directive.If?
    ensures Spans(lines, Branch(k, k), k + 1)
  {
    assert lines[k..k + 1] == [lines[k]] && lines[k + 1..k + 1] == [];
    NestsOne(lines[k], 0, 1);
  }

  lemma SpanRestarts<B>(lines: seq<Line<B>>, b: Branch, k: nat)
    requires |lines| == k + 1 && lines[k].directive.Else? && Spans(lines, b, k)
    ensures Spans(lines, Branch(b.ifAt, k), k + 1)
  {
    SpanEnds(lines, b, k);
    assert lines[k + 1..k + 1] == [];
  }

  lemma SpanGoesOn<B>(lines: seq<Line<B>>, b: Branch, k: nat)
    requires |lines| == k + 1 && lines[k].directive.Other? && Spans(lines, b, k)
    ensures Spans(lines, b, k + 1)
  {
    assert lines[k..k + 1] == [lines[k]];
    NestsOne(lines[k], 0, 0);
    SpanLonger(lines, b, k, k + 1);
  }

  lemma SpanTakesIn<B>(lines: seq<Line<B>>, outer: Branch, b: Branch, k: nat)
    requires |lines| == k + 1 && lines[k].directive.Endif?
    requires Spans(lines, outer, b.ifAt) && Spans(lines, b, k)
    ensures Spans(lines, outer, k + 1)
  {
    SpanEnds(lines, b, k);
    SpanLonger(lines, outer, b.ifAt, k + 1);
  }

  lemma SpanBefore<B>(lines: seq<Line<B>>, k: nat, was: seq<Branch>, j: nat)
    requires |lines| == k + 1 && SpansAll(lines[..k], was) && j < |was|
    ensures Spans(lines, was[j], if j + 1 < |was| then was[j + 1].ifAt else k)
  {
    assert SpanAt(lines[..k], was, j);
    SpanStays(lines[..k], lines, was[j], if j + 1 < |was| then was[j + 1].ifAt else k);
  }

  /** The last line k starts the innermost branch, belongs to it, or closes it. */
  lemma SpansNext<B>(lines: seq<Line<B>>, k: nat, was: seq<Branch>, open: seq<Branch>, j: nat)
    requires |lines| == k + 1 && open == NextBranches(was, lines[k].directive, k)
    requires SpansAll(lines[..k], was) && j < |open|
    ensures SpanAt(lines, open, j)
  {
    if j < |was| {
      SpanBefore(lines, k, was, j);
    }
    if j + 1 == |open| {
      match lines[k].directive {
        case If => SpanStarts(lines, k);
        case Else => SpanRestarts(lines, was[j], k);
        case Endif =>
          SpanBefore(lines, k, was, j + 1);
          SpanTakesIn(lines, was[j], was[j + 1], k);
        case Other => SpanGoesOn(lines, was[j], k);
      }
    }
  }

  lemma {:induction false} AllSpan<B>(lines: seq<Line<B>>)
    ensures SpansAll(lines, OpenBranches(lines))
    decreases |lines|
  {
    if lines != [] {
      AllSpan(Front(lines));
      forall j: nat | j < |OpenBranches(lines)|
        ensures SpanAt(lines, OpenBranches(lines), j)
      {
        SpansNext(lines, |lines| - 1, OpenBranches(Front(lines)), OpenBranches(lines), j);
      }
    }
  }

  ghost predicate StackIs<B>(n: Nest<B>, lines: seq<Line<B>>, h: seq<seq<B>>, i: nat)
    requires i <= |lines| < |h|
  {
    h[i] == Run(n, lines[..i]).stack
  }

  /** The stacks h before each of the lines, and after the last. */
  ghost predicate Stacks<B>(n: Nest<B>, lines: seq<Line<B>>, h: seq<seq<B>>) {
    && |h| == |lines| + 1
    && forall i: nat | i <= |lines| :: StackIs(n, lines, h, i)
  }

  lemma {:induction false} AllStacks<B>(n: Nest<B>, lines: seq<Line<B>>) returns (h: seq<seq<B>>)
    ensures Stacks(n, lines, h)
  {
    h := seq(|lines| + 1, i requires 0 <= i <= |lines| => Run(n, lines[..i]).stack);
  }

  /** The checkpoint of b holds the stack before its #if, and its branch started from that before line k. */
  ghost predicate Starts<B>(h: seq<seq<B>>, lines: seq<Line<B>>, k: nat, b: Branch, c: Checkpoint<B>)
    requires |h| == |lines| + 1
  {
    && b.ifAt <= b.startAt < k <= |lines|
    && h[b.ifAt] == c.beforeIf
    && h[b.startAt + 1] == lines[b.startAt].effect(c.beforeIf)
  }

  ghost predicate StartAt<B>(h: seq<seq<B>>, lines: seq<Line<B>>, k: nat, open: seq<Branch>,
                             pp: seq<Checkpoint<B>>, j: nat)
    requires |h| == |lines| + 1 && j < |open| == |pp|
  {
    Starts(h, lines, k, open[j], pp[j])
  }

  ghost predicate StartAll<B>(h: seq<seq<B>>, lines: seq<Line<B>>, k: nat, open: seq<Branch>, pp: seq<Checkpoint<B>>)
    requires |h| == |lines| + 1
  {
    |pp| == |open| && forall j: nat | j < |open| :: StartAt(h, lines, k, open, pp, j)
  }

  lemma StartsAtIf<B>(h: seq<seq<B>>, lines: seq<Line<B>>, k: nat, n: Nest<B>)
    requires k < |lines| && |h| == |lines| + 1 && lines[k].directive.If?
    requires h[k] == n.stack && h[k + 1] == Update(n, lines[k]).stack
    ensures Starts(h, lines, k + 1, Branch(k, k), Last(Update(n, lines[k]).pp))
  {
  }

  lemma StartsAtElse<B>(h: seq<seq<B>>, lines: seq<Line<B>>, k: nat, n: Nest<B>, b: Branch)
    requires k < |lines| && |h| == |lines| + 1 && lines[k].directive.Else?
    requires n.pp != [] && h[k + 1] == Update(n, lines[k]).stack && Starts(h, lines, k, b, Last(n.pp))
    ensures Starts(h, lines, k + 1, Branch(b.ifAt, k), Last(Update(n, lines[k]).pp))
  {
  }

  lemma StartsNext<B>(h: seq<seq<B>>, lines: seq<Line<B>>, k: nat, n: Nest<B>, open: seq<Branch>,
                      open': seq<Branch>, pp': seq<Checkpoint<B>>)
    requires k < |lines| && |h| == |lines| + 1 && StartAll(h, lines, k, open, n.pp)
    requires h[k] == n.stack && h[k + 1] == Update(n, lines[k]).stack
    requires open' == NextBranches(open, lines[k].directive, k) && pp' == Update(n, lines[k]).pp
    ensures StartAll(h, lines, k + 1, open', pp')
  {
    var k' := k + 1;
    forall j: nat | j < |open'|
      ensures StartAt(h, lines, k', open', pp', j)
    {
      if j < |open| {
        assert StartAt(h, lines, k, open, n.pp, j);
      }
      if lines[k].directive.If? && j == |open| {
        StartsAtIf(h, lines, k, n);
      } else if lines[k].directive.Else? && j + 1 == |open| {
        StartsAtElse(h, lines, k, n, open[j]);
      }
    }
  }

  lemma {:induction false} AllStart<B>(s: seq<B>, lines: seq<Line<B>>, h: seq<seq<B>>, k: nat)
    requires Stacks(Nest(s, []), lines, h) && k <= |lines|
    ensures StartAll(h, lines, k, OpenBranches(lines[..k]), Run(Nest(s, []), lines[..k]).pp)
    decreases k
  {
    if k > 0 {
      AllStart(s, lines, h, k - 1);
      assert StackIs(Nest(s, []), lines, h, k - 1) && StackIs(Nest(s, []), lines, h, k);
      assert Front(lines[..k]) == lines[..k - 1];
      StartsNext(h, lines, k - 1, Run(Nest(s, []), lines[..k - 1]), OpenBranches(lines[..k - 1]),
                 OpenBranches(lines[..k]), Run(Nest(s, []), lines[..k]).pp);
    }
  }

  lemma {:induction false} InnermostAt<B>(s: seq<B>, lines: seq<Line<B>>, h: seq<seq<B>>, k: nat, b: Branch)
    requires Stacks(Nest(s, []), lines, h) && k <= |lines|
    requires OpenBranches(lines[..k]) != [] && b == Last(OpenBranches(lines[..k]))
    ensures Run(Nest(s, []), lines[..k]).pp != []
    ensures Starts(h, lines, k, b, Last(Run(Nest(s, []), lines[..k]).pp))
  {
    var open := OpenBranches(lines[..k]);
    AllStart(s, lines, h, k);
    assert StartAt(h, lines, k, open, Run(Nest(s, []), lines[..k]).pp, |open| - 1);
  }

  /** Where the innermost branch started, and from which stack. */
  lemma {:induction false} InnermostStarts<B>(s: seq<B>, lines: seq<Line<B>>, k: nat, b: Branch)
    requires k <= |lines| && OpenBranches(lines[..k]) != [] && b == Last(OpenBranches(lines[..k]))
    ensures b.ifAt <= b.startAt < |lines|
    ensures var pp := Run(Nest(s, []), lines[..k]).pp;
            pp != [] && Last(pp).beforeIf == Run(Nest(s, []), lines[..b.ifAt]).stack
    ensures Run(Nest(s, []), lines[..b.startAt + 1]).stack ==
            lines[b.startAt].effect(Run(Nest(s, []), lines[..b.ifAt]).stack)
  {
    var h := AllStacks(Nest(s, []), lines);
    InnermostAt(s, lines, h, k, b);
    assert StackIs(Nest(s, []), lines, h, b.ifAt) && StackIs(Nest(s, []), lines, h, b.startAt + 1);
  }

  lemma {:induction false} RunJoin<B>(n: Nest<B>, a: seq<Line<B>>, b: seq<Line<B>>)
    ensures Run(n, a + b) == Run(Run(n, a), b)
    decreases |b|
  {
    if b == [] {
      assert a + b == a;
    } else {
      RunJoin(n, a, Front(b));
      assert Front(a + b) == a + Front(b) && Last(a + b) == Last(b);
    }
  }

  lemma {:induction false} BranchStack<B>(n: Nest<B>, lines: seq<Line<B>>, at: nat)
    requires at <= |lines| && Nests(lines[at..|lines|], 0, 0)
    ensures Run(n, lines).stack == FirstBranchesOnly(Run(n, lines[..at]).stack, lines[at..])
  {
    assert lines[at..|lines|] == lines[at..];
    RunJoin(n, lines[..at], lines[at..]);
    assert lines == lines[..at] + lines[at..];
    WellNestedStretch(Run(n, lines[..at]), lines[at..]);
  }

  /** The #if that the innermost branch belongs to: from there on it stays open, and the branch is its last. */
  lemma {:induction false} InnermostMatches<B>(lines: seq<Line<B>>, b: Branch)
    requires OpenBranches(lines) != [] && b == Last(OpenBranches(lines))
    ensures b.ifAt <= b.startAt < |lines|
    ensures lines[b.ifAt].directive.If? && (b.startAt == b.ifAt || lines[b.startAt].directive.Else?)
    ensures Nests(lines[b.ifAt..b.startAt + 1], 0, 1) && Nests(lines[b.startAt + 1..|lines|], 0, 0)
  {
    AllSpan(lines);
    assert SpanAt(lines, OpenBranches(lines), |OpenBranches(lines)| - 1);
  }

  /**
    For every sequence of lines: inside any branch of the innermost open conditional, first
    or later, the stack is what the line that starts the branch, and the first branches of
    the lines since, make of the stack that stood before the matching #if.
   */
  lemma {:induction false} InOpenBranch<B>(s: seq<B>, lines: seq<Line<B>>, b: Branch)
    requires OpenBranches(lines) != [] && b == Last(OpenBranches(lines))
    ensures b.ifAt <= b.startAt < |lines|
    ensures var beforeIf := Run(Nest(s, []), lines[..b.ifAt]).stack;
            Run(Nest(s, []), lines).stack ==
            FirstBranchesOnly(lines[b.startAt].effect(beforeIf), lines[b.startAt + 1..])
  {
    InnermostMatches(lines, b);
    assert lines[..|lines|] == lines;
    InnermostStarts(s, lines, |lines|, b);
    BranchStack(Nest(s, []), lines, b.startAt + 1);
  }

  /** In particular, right at an #else the stack is back to the one before the matching #if. */
  lemma {:induction false} ElseRestores<B>(s: seq<B>, lines: seq<Line<B>>, k: nat, b: Branch)
    requires k < |lines| && lines[k].directive.Else?
    requires OpenBranches(lines[..k]) != [] && b == Last(OpenBranches(lines[..k]))
    ensures b.ifAt < k
    ensures Preprocess(Run(Nest(s, []), lines[..k]), Else).stack == Run(Nest(s, []), lines[..b.ifAt]).stack
  {
    InnermostMatches(lines[..k], b);
    InnermostStarts(s, lines, k, b);
  }
}
