/**
  Scans that start above a real bracket: what lies below it on the stack does not matter
  until it is closed, so that a bracketed group leaves a scan as it was.
 */
module Framing {
  import opened Brackets
  import opened LineScan
  import opened FilePairs

  // ---------- a stack below a real bracket does not matter

  lemma StripFramed(below: seq<char>, st: seq<char>, a: char)
    requires Strip(st, a) != []
    ensures Strip(below + st, a) == below + Strip(st, a)
  {
    if Top(st) == a {
      assert Pop(below + st) == below + Pop(st);
      StripFramed(below, Pop(st), a);
    }
  }

  ghost function Framed(below: seq<char>, step: Step): Step {
    match step
    case Go(s) => Go(below + s)
    case Stop => Go(below)
    case Fail => Fail
  }

  lemma PopFramed(below: seq<char>, st: seq<char>)
    requires below != [] && st != []
    ensures Top(below + st) == Top(st) && Popped(below + st, Stop) == Framed(below, Popped(st, Stop))
  {
    assert Pop(below + st) == below + Pop(st);
    if |st| == 1 {
      assert Pop(st) == [] && below + [] == below;
    }
  }

  lemma StripPopFramed(below: seq<char>, st: seq<char>, a: char)
    requires below != [] && st != [] && st[0] != a
    ensures Strip(st, a) != [] && Strip(below + st, a) == below + Strip(st, a)
    ensures Top(Strip(below + st, a)) == Top(Strip(st, a))
    ensures Popped(Strip(below + st, a), Stop) == Framed(below, Popped(Strip(st, a), Stop))
  {
    DropStrip(st, a);
    StripFramed(below, st, a);
    PopFramed(below, Strip(st, a));
  }

  lemma StepRightFramed(c: Cell, below: seq<char>, st: seq<char>)
    requires below != [] && st != [] && st[0] != '<'
    ensures StepRight(c, below + st) == Framed(below, StepRight(c, st))
  {
    StripPopFramed(below, st, '<');
    PopFramed(below, st);
    assert (below + st) + [c.ch] == below + (st + [c.ch]);
    if c.ch == '<' && Top(st) == '<' {
      assert |st| > 1;
    }
  }

  lemma StepLeftFramed(c: Cell, below: seq<char>, st: seq<char>)
    requires below != [] && st != [] && st[0] != '>'
    ensures StepLeft(c, below + st) == Framed(below, StepLeft(c, st))
  {
    StripPopFramed(below, st, '>');
    PopFramed(below, st);
    assert (below + st) + [c.ch] == below + (st + [c.ch]);
  }

  lemma RightKeepsBottom(c: Cell, st: seq<char>)
    requires st != [] && st[0] != '<' && StepRight(c, st).Go?
    ensures StepRight(c, st).stack != [] && StepRight(c, st).stack[0] != '<'
  {
    if IsClose(c.ch) {
      StepRightClose(c, st);
    } else if !IsOpen(c.ch) {
      StepRightOther(c, st);
    }
  }

  lemma LeftKeepsBottom(c: Cell, st: seq<char>)
    requires st != [] && st[0] != '>' && StepLeft(c, st).Go?
    ensures StepLeft(c, st).stack != [] && StepLeft(c, st).stack[0] != '>'
  {
    if IsOpen(c.ch) {
      StepLeftOpen(c, st);
    } else if !IsClose(c.ch) {
      StepLeftOther(c, st);
    }
  }

  lemma {:induction false} RightFramed(cs: seq<Cell>, i: nat, below: seq<char>, st: seq<char>)
    requires i <= |cs| && below != [] && st != [] && st[0] != '<' && ScanRight(cs, i, st).Stopped?
    ensures ScanRight(cs, i, below + st) == ScanRight(cs, ScanRight(cs, i, st).pos + 1, below)
    decreases |cs| - i
  {
    StepRightFramed(cs[i], below, st);
    var step := StepRight(cs[i], st);
    if step.Go? {
      RightKeepsBottom(cs[i], st);
      RightFramed(cs, i + 1, below, step.stack);
    }
  }

  lemma {:induction false} LeftFramed(cs: seq<Cell>, i: nat, below: seq<char>, st: seq<char>)
    requires i <= |cs| && below != [] && st != [] && st[0] != '>' && ScanLeft(cs, i, st).Stopped?
    ensures ScanLeft(cs, i, below + st) == ScanLeft(cs, ScanLeft(cs, i, st).pos, below)
    decreases i
  {
    StepLeftFramed(cs[i - 1], below, st);
    var step := StepLeft(cs[i - 1], st);
    if step.Go? {
      LeftKeepsBottom(cs[i - 1], st);
      LeftFramed(cs, NextLeft(cs, i), below, step.stack);
    }
  }

  lemma {:induction false} RightFramedNever(cs: seq<Cell>, i: nat, below: seq<char>, st: seq<char>)
    requires i <= |cs| && below != [] && st != [] && st[0] != '<' && !ScanRight(cs, i, st).Stopped?
    ensures !ScanRight(cs, i, below + st).Stopped?
    decreases |cs| - i
  {
    if i < |cs| {
      StepRightFramed(cs[i], below, st);
      var step := StepRight(cs[i], st);
      if step.Go? {
        RightKeepsBottom(cs[i], st);
        RightFramedNever(cs, i + 1, below, step.stack);
      }
    }
  }

  lemma {:induction false} LeftFramedNever(cs: seq<Cell>, i: nat, below: seq<char>, st: seq<char>)
    requires i <= |cs| && below != [] && st != [] && st[0] != '>' && !ScanLeft(cs, i, st).Stopped?
    ensures !ScanLeft(cs, i, below + st).Stopped?
    decreases i
  {
    if i > 0 {
      StepLeftFramed(cs[i - 1], below, st);
      var step := StepLeft(cs[i - 1], st);
      if step.Go? {
        LeftKeepsBottom(cs[i - 1], st);
        LeftFramedNever(cs, NextLeft(cs, i), below, step.stack);
      }
    }
  }

  // ---------- a bracketed group leaves a scan as it was

  lemma DropSingle(c: char, a: char)
    requires c != a
    ensures Drop([c], a) == [c]
  {
    assert Pop([c]) == [];
  }

  lemma RightStops(cs: seq<Cell>, i: nat, k: nat, o: char)
    requires i <= |cs| && o != '<' && Forward(Chars(cs), i, [o]) == Found(k)
    ensures ScanRight(cs, i, [o]) == Stopped(k)
  {
    DropSingle(o, '<');
    RightRefines(cs, i, [o]);
  }

  lemma RightStopsAtPartner(cs: seq<Cell>, i: nat, k: nat)
    requires Matching(Chars(cs), i, k)
    ensures ScanRight(cs, i + 1, [cs[i].ch]) == Stopped(k)
  {
    ForwardExact(Chars(cs), i, k);
    RightStops(cs, i + 1, k, cs[i].ch);
  }

  lemma RightOverGroup(cs: seq<Cell>, i: nat, k: nat, st: seq<char>)
    requires st != [] && Matching(Chars(cs), i, k)
    ensures ScanRight(cs, i, st) == ScanRight(cs, k + 1, st)
  {
    RightStopsAtPartner(cs, i, k);
    RightFramed(cs, i + 1, st, [cs[i].ch]);
    assert StepRight(cs[i], st) == Go(st + [cs[i].ch]);
  }

  lemma LeftStops(cs: seq<Cell>, i: nat, k: nat, c: char)
    requires SkipsHarmless(cs) && k <= |cs| && c != '>' && Backward(Chars(cs), k, [c]) == Found(i)
    ensures ScanLeft(cs, k, [c]) == Stopped(i)
  {
    DropSingle(c, '>');
    LeftRefines(cs, k, [c]);
  }

  lemma LeftStopsAtPartner(cs: seq<Cell>, i: nat, k: nat)
    requires SkipsHarmless(cs) && Matching(Chars(cs), i, k)
    ensures ScanLeft(cs, k, [cs[k].ch]) == Stopped(i)
  {
    BackwardExact(Chars(cs), i, k);
    LeftStops(cs, i, k, cs[k].ch);
  }

  lemma LeftOverGroup(cs: seq<Cell>, i: nat, k: nat, st: seq<char>)
    requires st != [] && SkipsHarmless(cs) && Matching(Chars(cs), i, k)
    ensures ScanLeft(cs, k + 1, st) == ScanLeft(cs, i, st)
  {
    LeftStopsAtPartner(cs, i, k);
    LeftFramed(cs, k, st, [cs[k].ch]);
    assert StepLeft(cs[k], st) == Go(st + [cs[k].ch]) && NextLeft(cs, k + 1) == k;
  }

  /** A bracket without a partner ends a scan to the right without success. */
  lemma RightWithoutPartner(cs: seq<Cell>, i: nat, st: seq<char>)
    requires i < |cs| && IsOpen(cs[i].ch) && st != [] && Forward(Chars(cs), i + 1, [cs[i].ch]) == NotFound
    ensures !ScanRight(cs, i, st).Stopped?
  {
    DropSingle(cs[i].ch, '<');
    RightRefines(cs, i + 1, [cs[i].ch]);
    RightFramedNever(cs, i + 1, st, [cs[i].ch]);
    assert StepRight(cs[i], st) == Go(st + [cs[i].ch]);
  }

  /** A bracket without a partner ends a scan to the left without success. */
  lemma LeftWithoutPartner(cs: seq<Cell>, k: nat, st: seq<char>)
    requires SkipsHarmless(cs) && k < |cs| && IsClose(cs[k].ch) && st != []
    requires Backward(Chars(cs), k, [cs[k].ch]) == NotFound
    ensures !ScanLeft(cs, k + 1, st).Stopped?
  {
    DropSingle(cs[k].ch, '>');
    LeftRefines(cs, k, [cs[k].ch]);
    LeftFramedNever(cs, k, st, [cs[k].ch]);
    assert StepLeft(cs[k], st) == Go(st + [cs[k].ch]) && NextLeft(cs, k + 1) == k;
  }

  // ---------- stacks of tentative brackets only

  /** A stack of n tentative brackets a. */
  ghost function Angles(n: nat, a: char): (st: seq<char>)
    ensures |st| == n
  {
    if n == 0 then [] else Angles(n - 1, a) + [a]
  }

  lemma {:induction false} AnglesTop(n: nat, a: char)
    requires n > 0
    ensures Angles(n, a) != [] && Top(Angles(n, a)) == a && Pop(Angles(n, a)) == Angles(n - 1, a)
  {
  }

  lemma {:induction false} AnglesStrip(n: nat, a: char)
    ensures Strip(Angles(n, a), a) == []
  {
    if n > 0 {
      AnglesTop(n, a);
      AnglesStrip(n - 1, a);
    }
  }
}
