/**
  The linter's NestingState as it is kept in memory: a stack is a list of references to
  blocks, lines update the innermost block in place, and checkpoints are deep copies of the
  stack. Each operation is proved against the operation on values, which is where sharing
  a block between the live stack and a checkpoint would show.
 */
module NestingHeap {
  import opened Seqs
  import opened Nesting

  datatype Kind = Generic | ExternC | Class | Namespace

  datatype Asm = NoAsm | InsideAsm | EndAsm | BlockAsm

  datatype BlockValue = BlockValue(kind: Kind, seenOpenBrace: bool, openParentheses: int, inlineAsm: Asm)

  // ---------- what the text of a line does to the stack, on values

  /** The parenthesis count of the innermost block, and its inline assembly state. */
  function CountTop(v: BlockValue, change: int, matchesAsm: bool): BlockValue {
    var open := v.openParentheses + change;
    var asm :=
      if v.inlineAsm == NoAsm || v.inlineAsm == EndAsm then
        if change != 0 && open == 1 && matchesAsm then InsideAsm else NoAsm
      else if v.inlineAsm == InsideAsm && open == 0 then EndAsm
      else v.inlineAsm;
    v.(openParentheses := open, inlineAsm := asm)
  }

  function CountParentheses(s: seq<BlockValue>, change: int, matchesAsm: bool): seq<BlockValue> {
    if s == [] then s else Front(s) + [CountTop(Last(s), change, matchesAsm)]
  }

  /** What is left of the line, read as declarations and punctuation. */
  datatype Token =
    | NamespaceHead(braced: bool)
    | ClassHead
    | OpenBrace(externC: bool, matchesAsm: bool)
    | EndStatement  // a semicolon or a closing parenthesis
    | CloseBrace

  function ApplyToken(s: seq<BlockValue>, t: Token): seq<BlockValue> {
    match t
    case NamespaceHead(braced) => s + [BlockValue(Namespace, braced, 0, NoAsm)]
    case ClassHead =>
      if s == [] || Last(s).openParentheses == 0 then s + [BlockValue(Class, false, 0, NoAsm)] else s
    case OpenBrace(externC, matchesAsm) =>
      if s != [] && !Last(s).seenOpenBrace then Front(s) + [Last(s).(seenOpenBrace := true)]
      else if externC then s + [BlockValue(ExternC, true, 0, NoAsm)]
      else s + [BlockValue(Generic, true, 0, if matchesAsm then BlockAsm else NoAsm)]
    case EndStatement => if s != [] && !Last(s).seenOpenBrace then Front(s) else s
    case CloseBrace => if s != [] then Front(s) else s
  }

  function ApplyTokens(s: seq<BlockValue>, ts: seq<Token>): seq<BlockValue> {
    if ts == [] then s else ApplyToken(ApplyTokens(s, Front(ts)), Last(ts))
  }

  /** The lowest height of the stack while the tokens are read. */
  function Lowest(s: seq<BlockValue>, ts: seq<Token>): nat {
    if ts == [] then |s|
    else
      var before, after := Lowest(s, Front(ts)), |ApplyTokens(s, ts)|;
      if after < before then after else before
  }

  /** A line as the nesting state sees it. */
  datatype SourceLine = SourceLine(directive: Directive, change: int, matchesAsm: bool, tokens: seq<Token>)

  ghost function AsLine(l: SourceLine): Line<BlockValue> {
    Line(l.directive, s => ApplyTokens(CountParentheses(s, l.change, l.matchesAsm), l.tokens))
  }

  // ---------- blocks in memory

  /** A reference to a block: its place in the store. Two references may name one block. */
  type Ref = nat

  ghost function Owned(p: Checkpoint<Ref>): set<Ref> {
    Elements(p.beforeIf) + Elements(p.beforeElse)
  }

  /** The blocks of all checkpoints. */
  ghost function Saved(pp: seq<Checkpoint<Ref>>): set<Ref> {
    if pp == [] then {} else Saved(Front(pp)) + Owned(Last(pp))
  }

  /** No two checkpoints share a block. */
  ghost predicate SavedApart(pp: seq<Checkpoint<Ref>>) {
    pp != [] ==>
      && SavedApart(Front(pp))
      && Distinct(Last(pp).beforeIf) && Distinct(Last(pp).beforeElse)
      && Saved(Front(pp)) !! Owned(Last(pp))
  }

  /** Nor does a checkpoint share a block with the live stack. */
  ghost predicate Separate(n: Nest<Ref>) {
    Distinct(n.stack) && SavedApart(n.pp) && Elements(n.stack) !! Saved(n.pp)
  }

  ghost predicate Within(refs: set<Ref>, bound: nat) {
    forall r | r in refs :: r < bound
  }

  /** The values of the blocks that s refers to. */
  ghost function Values(store: seq<BlockValue>, s: seq<Ref>): (v: seq<BlockValue>)
    requires Within(Elements(s), |store|)
    ensures |v| == |s|
    ensures forall i | 0 <= i < |s| :: s[i] < |store| && v[i] == store[s[i]]
  {
    assert forall i | 0 <= i < |s| :: s[i] in Elements(s);
    seq(|s|, i requires 0 <= i < |s| && s[i] < |store| => store[s[i]])
  }

  ghost function CheckpointValue(store: seq<BlockValue>, p: Checkpoint<Ref>): Checkpoint<BlockValue>
    requires Within(Owned(p), |store|)
  {
    Checkpoint(Values(store, p.beforeIf), Values(store, p.beforeElse), p.seenElse)
  }

  ghost function Checkpoints(store: seq<BlockValue>, pp: seq<Checkpoint<Ref>>): (v: seq<Checkpoint<BlockValue>>)
    requires Within(Saved(pp), |store|)
    ensures |v| == |pp|
  {
    if pp == [] then [] else Checkpoints(store, Front(pp)) + [CheckpointValue(store, Last(pp))]
  }

  /** Two stores give the same values to the blocks refs. */
  ghost predicate Agree(a: seq<BlockValue>, b: seq<BlockValue>, refs: set<Ref>) {
    forall r | r in refs :: r < |a| && r < |b| && a[r] == b[r]
  }

  lemma {:induction false} CheckpointsAgree(a: seq<BlockValue>, b: seq<BlockValue>, pp: seq<Checkpoint<Ref>>)
    requires Agree(a, b, Saved(pp))
    ensures Checkpoints(a, pp) == Checkpoints(b, pp)
  {
    if pp != [] {
      CheckpointsAgree(a, b, Front(pp));
      var p := Last(pp);
      assert Values(a, p.beforeIf) == Values(b, p.beforeIf);
      assert Values(a, p.beforeElse) == Values(b, p.beforeElse);
    }
  }

  lemma FrontLast<T>(s: seq<T>, x: T)
    ensures Front(s + [x]) == s && Last(s + [x]) == x
  {
  }

  /** A reference, or none. */
  datatype MaybeRef = NoRef | SomeRef(ref: Ref)

  /** Blocks are only added, and a block stays of its kind. */
  ghost predicate KindsKept(a: seq<BlockValue>, b: seq<BlockValue>) {
    |a| <= |b| && forall r | 0 <= r < |a| :: b[r].kind == a[r].kind
  }

  /** A directive leaves the stack as it is, and does not put a saved one in its place. */
  predicate StackKept<B>(pp: seq<Checkpoint<B>>, d: Directive) {
    match d
    case If => true
    case Else => pp == []
    case Endif => pp == [] || !Last(pp).seenElse
    case Other => true
  }

  /** Up to the height m, after is before; above it all blocks are new. */
  ghost predicate KeptUpTo(before: seq<Ref>, after: seq<Ref>, m: nat, size: nat) {
    && m <= |before| && m <= |after| && after[..m] == before[..m]
    && forall i | m <= i < |after| :: after[i] >= size
  }

  /** One token pushes a new block, pops the innermost one, or does neither. */
  ghost predicate Moves(before: seq<Ref>, after: seq<Ref>, size: nat) {
    || after == before
    || (|after| == |before| + 1 && after[..|before|] == before && after[|before|] >= size)
    || (before != [] && after == Front(before))
  }

  /** r is the block below the top of the stack. */
  ghost predicate BelowTopIs(s: seq<Ref>, r: Ref) {
    |s| >= 2 && s[|s| - 2] == r
  }

  lemma MovesKept(first: seq<Ref>, before: seq<Ref>, after: seq<Ref>, m: nat, size: nat, size': nat)
    requires KeptUpTo(first, before, m, size) && Moves(before, after, size') && size <= size'
    ensures KeptUpTo(first, after, if |after| < m then |after| else m, size)
  {
    var n := if |after| < m then |after| else m;
    assert after[..n] == before[..n] == first[..n];
  }

  /**
    The block that was on top is the one below the top exactly when nothing of the old
    stack was popped and one block was pushed onto it.
   */
  lemma BelowTopExactly(before: seq<Ref>, after: seq<Ref>, m: nat, size: nat)
    requires Distinct(before) && before != [] && Within(Elements(before), size) && KeptUpTo(before, after, m, size)
    ensures BelowTopIs(after, Last(before)) <==> m == |before| && |after| == |before| + 1
  {
    assert Last(before) in Elements(before);
    if |after| >= 2 {
      var k := |after| - 2;
      if k < m {
        assert after[k] == after[..m][k] == before[..m][k] == before[k];
      }
    }
  }

  /** Nor is it, when another stack was put in place of the old one. */
  lemma NotBelowTop(before: seq<Ref>, middle: seq<Ref>, after: seq<Ref>, m: nat, size: nat)
    requires before != [] && Within(Elements(before), size) && Elements(middle) !! Elements(before)
    requires KeptUpTo(middle, after, m, size)
    ensures !BelowTopIs(after, Last(before))
  {
    assert Last(before) in Elements(before);
    if |after| >= 2 {
      var k := |after| - 2;
      if k < m {
        assert after[k] == after[..m][k] == middle[..m][k] == middle[k];
        assert middle[k] in Elements(middle);
      }
    }
  }

  lemma PreviousTopExactly(before: seq<Ref>, size: nat, kept: bool, middle: seq<Ref>, m: nat, size': nat,
                           after: seq<Ref>)
    requires Distinct(before) && before != [] && Within(Elements(before), size) && size <= size'
    requires if kept then middle == before else Elements(middle) !! Elements(before)
    requires KeptUpTo(middle, after, m, size')
    ensures BelowTopIs(after, Last(before)) <==>
            kept && m == |before| && |after| == |before| + 1
  {
    if kept {
      BelowTopExactly(before, after, m, size);
    } else {
      NotBelowTop(before, middle, after, m, size);
    }
  }

  class NestingState {
    var store: seq<BlockValue>  // every block ever made
    var stack: seq<Ref>
    var ppStack: seq<Checkpoint<Ref>>
    var previousTop: MaybeRef   // the innermost block before the last line, not copied

    constructor ()
      ensures Valid() && Value() == Nest([], [])
    {
      store, stack, ppStack, previousTop := [], [], [], NoRef;
    }

    ghost predicate Valid()
      reads `store, `stack, `ppStack
    {
      && Separate(Nest(stack, ppStack))
      && Within(Elements(stack), |store|)
      && Within(Saved(ppStack), |store|)
    }

    /** The state with each reference replaced by the value of its block. */
    ghost function Value(): (v: Nest<BlockValue>)
      requires Valid()
      reads `store, `stack, `ppStack
    {
      Nest(Values(store, stack), Checkpoints(store, ppStack))
    }

    /** copy.deepcopy of a stack: new blocks with the same values. */
    method DeepCopy(s: seq<Ref>) returns (c: seq<Ref>)
      requires Within(Elements(s), |store|)
      modifies this`store
      ensures old(store) <= store && Within(Elements(c), |store|) && Distinct(c)
      ensures forall r | r in c :: |old(store)| <= r
      ensures Values(store, c) == Values(store, s) == old(Values(store, s))
    {
      c := [];
      ghost var size := |store|;
      assert forall i | 0 <= i < |s| :: s[i] in Elements(s);
      while |c| < |s|
        invariant |c| <= |s| && old(store) <= store && |store| == size + |c|
        invariant forall i | 0 <= i < |c| :: c[i] == size + i && store[c[i]] == store[s[i]]
      {
        store := store + [store[s[|c|]]];
        c := c + [|store| - 1];
      }
    }

    /** At an #if: save a copy of the stack. */
    method SaveBeforeIf()
      requires Valid()
      modifies this`store, this`ppStack
      ensures KindsKept(old(store), store)
      ensures Valid() && Value() == Preprocess(old(Value()), If)
    {
      var saved := DeepCopy(stack);
      CheckpointsAgree(old(store), store, ppStack);
      ghost var added := Checkpoint(saved, [], false);
      assert Owned(added) == Elements(saved);
      assert Elements(saved) !! Elements(stack) && Elements(saved) !! Saved(ppStack);
      FrontLast(ppStack, added);
      ppStack := ppStack + [Checkpoint(saved, [], false)];
    }

    /** At the first #else or #elif: remember the stack up to this point. */
    method SaveBeforeElse()
      requires Valid() && ppStack != []
      modifies this`store, this`ppStack
      ensures KindsKept(old(store), store)
      ensures Valid() && stack == old(stack) && ppStack != []
      ensures Value() == Nesting.SaveBeforeElse(old(Value()), old(Value()).stack)
    {
      var saved := DeepCopy(stack);
      CheckpointsAgree(old(store), store, ppStack);
      var rest, top := Front(ppStack), Last(ppStack).(seenElse := true, beforeElse := saved);
      FrontLast(rest, top);
      ppStack := rest + [top];
    }

    /** Go back to a copy of the stack before the #if. */
    method RestoreBeforeIf()
      requires Valid() && ppStack != []
      modifies this`store, this`stack
      ensures KindsKept(old(store), store)
      ensures Valid() && Value() == old(Value()).(stack := Last(old(Value()).pp).beforeIf)
      ensures forall r | r in stack :: |old(store)| <= r
    {
      stack := DeepCopy(Last(ppStack).beforeIf);
      CheckpointsAgree(old(store), store, ppStack);
    }

    /** At an #endif: take back the stack saved at the #else, if any, and drop the checkpoint. */
    method DropCheckpoint()
      requires Valid() && ppStack != []
      modifies this`stack, this`ppStack
      ensures Valid() && Value() == Preprocess(old(Value()), Endif)
      ensures if StackKept(old(ppStack), Endif) then stack == old(stack) else Elements(stack) !! Elements(old(stack))
    {
      if Last(ppStack).seenElse {
        stack := Last(ppStack).beforeElse;
      }
      ppStack := ppStack[..|ppStack| - 1];
    }

    /** UpdatePreprocessor, given the directive of the line. */
    method UpdatePreprocessor(d: Directive)
      requires Valid()
      modifies this`store, this`stack, this`ppStack
      ensures KindsKept(old(store), store)
      ensures Valid() && Value() == Preprocess(old(Value()), d)
      ensures if StackKept(old(ppStack), d) then stack == old(stack) else Elements(stack) !! Elements(old(stack))
    {
      match d {
        case If =>
          SaveBeforeIf();
        case Else =>
          if ppStack != [] {
            if !Last(ppStack).seenElse {
              SaveBeforeElse();
            }
            RestoreBeforeIf();
          }
        case Endif =>
          if ppStack != [] {
            DropCheckpoint();
          }
        case Other =>
      }
    }

    /** Assign to the innermost block, in place: no checkpoint sees the change. */
    method SetTop(v: BlockValue)
      requires Valid() && stack != [] && (Last(stack) < |store| ==> v.kind == store[Last(stack)].kind)
      modifies this`store
      ensures KindsKept(old(store), store)
      ensures Valid() && stack == old(stack) && |store| == old(|store|)
      ensures Value() == old(Value()).(stack := Front(old(Value()).stack) + [v])
    {
      var top := stack[|stack| - 1];
      assert top in Elements(stack);
      store := store[top := v];
      CheckpointsAgree(old(store), store, ppStack);
    }

    /** The assignments to the innermost block, on its value. */
    static method CountBlock(v: BlockValue, change: int, matchesAsm: bool) returns (inner: BlockValue)
      ensures inner == CountTop(v, change, matchesAsm)
    {
      inner := v.(openParentheses := v.openParentheses + change);
      if inner.inlineAsm == NoAsm || inner.inlineAsm == EndAsm {
        if change != 0 && inner.openParentheses == 1 && matchesAsm {
          inner := inner.(inlineAsm := InsideAsm);
        } else {
          inner := inner.(inlineAsm := NoAsm);
        }
      } else if inner.inlineAsm == InsideAsm && inner.openParentheses == 0 {
        inner := inner.(inlineAsm := EndAsm);
      }
    }

    /** The parenthesis and assembly bookkeeping of Update, on the innermost block. */
    method CountInPlace(change: int, matchesAsm: bool)
      requires Valid()
      modifies this`store
      ensures KindsKept(old(store), store)
      ensures Valid() && Value() == old(Value()).(stack := CountParentheses(old(Value()).stack, change, matchesAsm))
    {
      if stack != [] {
        assert Last(stack) in Elements(stack);
        var inner := CountBlock(store[Last(stack)], change, matchesAsm);
        SetTop(inner);
      }
    }

    /** Push a new block. */
    method Push(v: BlockValue)
      requires Valid()
      modifies this`store, this`stack
      ensures KindsKept(old(store), store)
      ensures Valid() && Value() == old(Value()).(stack := old(Value()).stack + [v])
      ensures stack == old(stack) + [|old(store)|]
    {
      var r := |store|;
      assert r !in Elements(stack) && r !in Saved(ppStack);
      assert Elements(stack + [r]) == Elements(stack) + {r};
      assert forall i | 0 <= i < |stack| :: stack[i] in Elements(stack);
      store := store + [v];
      CheckpointsAgree(old(store), store, ppStack);
      stack := stack + [r];
    }

    /** Pop the innermost block. */
    method PopBlock()
      requires Valid() && stack != []
      modifies this`stack
      ensures Valid() && Value() == old(Value()).(stack := Front(old(Value()).stack))
      ensures stack == Front(old(stack))
    {
      assert forall r | r in Front(stack) :: r in stack;
      assert Elements(Front(stack)) <= Elements(stack);
      stack := stack[..|stack| - 1];
    }

    /** An opening brace: mark the innermost block as opened, or push a new block. */
    method ConsumeBrace(externC: bool, matchesAsm: bool)
      requires Valid()
      modifies this`store, this`stack
      ensures KindsKept(old(store), store)
      ensures Valid()
      ensures Value() == old(Value()).(stack := ApplyToken(old(Value()).stack, OpenBrace(externC, matchesAsm)))
      ensures Moves(old(stack), stack, |old(store)|)
    {
      assert stack != [] ==> Last(stack) in Elements(stack);
      ghost var v, t := Value().stack, OpenBrace(externC, matchesAsm);
      assert |v| == |stack| && (stack != [] ==> Last(v) == store[Last(stack)]);
      if stack != [] && !store[Last(stack)].seenOpenBrace {
        assert ApplyToken(v, t) == Front(v) + [store[Last(stack)].(seenOpenBrace := true)];
        SetTop(store[Last(stack)].(seenOpenBrace := true));
      } else if externC {
        assert ApplyToken(v, t) == v + [BlockValue(ExternC, true, 0, NoAsm)];
        Push(BlockValue(ExternC, true, 0, NoAsm));
      } else {
        Push(BlockValue(Generic, true, 0, if matchesAsm then BlockAsm else NoAsm));
      }
    }

    /** One declaration or punctuation mark of the line. */
    method Consume(t: Token)
      requires Valid()
      modifies this`store, this`stack
      ensures KindsKept(old(store), store)
      ensures Valid() && Value() == old(Value()).(stack := ApplyToken(old(Value()).stack, t))
      ensures Moves(old(stack), stack, |old(store)|)
    {
      assert stack != [] ==> Last(stack) in Elements(stack);
      ghost var v := Value().stack;
      assert |v| == |stack| && (stack != [] ==> Last(v) == store[Last(stack)]);
      match t {
        case NamespaceHead(braced) =>
          Push(BlockValue(Namespace, braced, 0, NoAsm));
        case ClassHead =>
          if stack == [] || store[Last(stack)].openParentheses == 0 {
            assert ApplyToken(v, t) == v + [BlockValue(Class, false, 0, NoAsm)];
            Push(BlockValue(Class, false, 0, NoAsm));
          }
        case OpenBrace(externC, matchesAsm) =>
          ConsumeBrace(externC, matchesAsm);
        case EndStatement =>
          if stack != [] && !store[Last(stack)].seenOpenBrace {
            assert ApplyToken(v, t) == Front(v);
            PopBlock();
          }
        case CloseBrace =>
          if stack != [] {
            PopBlock();
          }
      }
    }

    /** What is left of the line. */
    method ConsumeAll(tokens: seq<Token>)
      requires Valid()
      modifies this`store, this`stack
      ensures KindsKept(old(store), store)
      ensures Valid() && Value() == old(Value()).(stack := ApplyTokens(old(Value()).stack, tokens))
      ensures KeptUpTo(old(stack), stack, Lowest(old(Value()).stack, tokens), |old(store)|)
    {
      ghost var n, first := Value(), stack;
      for i := 0 to |tokens|
        invariant KindsKept(old(store), store)
        invariant Valid() && Value() == n.(stack := ApplyTokens(n.stack, tokens[..i]))
        invariant KeptUpTo(first, stack, Lowest(n.stack, tokens[..i]), |old(store)|)
      {
        ghost var before, size := stack, |store|;
        Consume(tokens[i]);
        assert Front(tokens[..i + 1]) == tokens[..i];
        assert |stack| == |ApplyTokens(n.stack, tokens[..i + 1])|;
        MovesKept(first, before, stack, Lowest(n.stack, tokens[..i]), |old(store)|, size);
      }
      assert tokens[..|tokens|] == tokens;
    }

    /** The directive and the counts of a line. */
    method Begin(line: SourceLine)
      requires Valid()
      modifies this`store, this`stack, this`ppStack
      ensures Valid() && Value() == Preprocess(old(Value()), line.directive).(stack := Counted(old(Value()), line))
      ensures KindsKept(old(store), store)
      ensures if StackKept(old(ppStack), line.directive) then stack == old(stack)
              else Elements(stack) !! Elements(old(stack))
    {
      UpdatePreprocessor(line.directive);
      CountInPlace(line.change, line.matchesAsm);
    }

    /** All that a line does to the stack, and the lowest height of the stack on the way. */
    method Read(line: SourceLine) returns (ghost low: nat)
      requires Valid()
      modifies this`store, this`stack, this`ppStack
      ensures Valid() && Value() == Nesting.Update(old(Value()), AsLine(line))
      ensures KindsKept(old(store), store)
      ensures low == Lowest(Counted(old(Value()), line), line.tokens)
      ensures old(stack) != [] ==>
                (BelowTopIs(stack, Last(old(stack))) <==>
                 StackKept(old(ppStack), line.directive) && low == |old(stack)| && |stack| == |old(stack)| + 1)
    {
      ghost var before, size, kept := stack, |store|, StackKept(ppStack, line.directive);
      assert Distinct(before) && Within(Elements(before), size);
      Begin(line);
      ghost var middle, size' := stack, |store|;
      low := Lowest(Value().stack, line.tokens);
      ConsumeAll(line.tokens);
      if before != [] {
        PreviousTopExactly(before, size, kept, middle, low, size', stack);
      }
    }

    /**
      Update: the directive, then the counts, then what is left of the line. The reference
      to the block that was innermost before is not a copy. Its counts may change with the
      line, but the block stays of its kind. It is the block below the top afterwards exactly
      when the directive left the stack in place and the line pushed one block onto it.
     */
    method Update(line: SourceLine)
      requires Valid()
      modifies this
      ensures Valid() && Value() == Nesting.Update(old(Value()), AsLine(line))
      ensures previousTop == if old(stack) == [] then NoRef else SomeRef(Last(old(stack)))
      ensures KindsKept(old(store), store)
      ensures previousTop.SomeRef? ==>
                (BelowTopIs(stack, previousTop.ref) <==>
                 && StackKept(old(ppStack), line.directive)
                 && Lowest(Counted(old(Value()), line), line.tokens) == |old(stack)| && |stack| == |old(stack)| + 1)
    {
      previousTop := if stack == [] then NoRef else SomeRef(Last(stack));
      ghost var low := Read(line);
    }

    /**
      Every line of a file in turn. Wherever no open conditional is past its first branch,
      the stack holds the values that first branches alone give it.
     */
    method UpdateAll(lines: seq<SourceLine>)
      requires Valid() && ppStack == []
      modifies this
      ensures Valid()
      ensures Value() == Run(old(Value()), AsLines(lines))
      ensures InFirstBranches(Flags(AsLines(lines))) ==>
                Value().stack == FirstBranchesOnly(old(Value()).stack, AsLines(lines))
    {
      ghost var n := Value();
      var i := 0;
      while i < |lines|
        invariant 0 <= i <= |lines| && Valid()
        invariant Value() == Run(n, AsLines(lines[..i]))
      {
        Update(lines[i]);
        RunOneMore(n, lines, i);
        i := i + 1;
      }
      assert lines[..i] == lines;
      AsIfFirstBranches(n.stack, AsLines(lines));
    }
  }

  /** The stack of a state after the directive and the counts of a line. */
  ghost function Counted(n: Nest<BlockValue>, line: SourceLine): seq<BlockValue> {
    CountParentheses(Preprocess(n, line.directive).stack, line.change, line.matchesAsm)
  }

  lemma RunOneMore(n: Nest<BlockValue>, lines: seq<SourceLine>, i: nat)
    requires i < |lines|
    ensures Run(n, AsLines(lines[..i + 1])) == Nesting.Update(Run(n, AsLines(lines[..i])), AsLine(lines[i]))
  {
    var longer, shorter := AsLines(lines[..i + 1]), AsLines(lines[..i]);
    assert Front(longer) == shorter;
    assert Last(longer) == AsLine(lines[i]);
  }

  ghost function AsLines(lines: seq<SourceLine>): (r: seq<Line<BlockValue>>)
    ensures |r| == |lines|
  {
    seq(|lines|, i requires 0 <= i < |lines| => AsLine(lines[i]))
  }
}
