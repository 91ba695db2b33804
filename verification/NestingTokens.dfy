/**
  What the nesting stack means: which braces, class heads and namespaces of the text are
  open. The text is given by a grammar that knows nothing of stacks, and every reading of
  it, on one line or spread over a file, leaves exactly the blocks that it leaves open.
 */
module NestingTokens {
  import opened Seqs
  import opened Nesting
  import opened NestingHeap

  // ---------- the grammar

  /** What opens a block: a namespace with its brace, a head and then its brace, or a brace alone. */
  datatype Opener =
    | BracedNamespace
    | Headed(namespace: bool, externC: bool, matchesAsm: bool)
    | Braced(externC: bool, matchesAsm: bool)

  /** A block with all that it holds, a head that is only declared, or a semicolon or parenthesis. */
  datatype Piece = Block(opener: Opener, body: seq<Piece>) | Forward(namespace: bool) | Statement

  function Head(namespace: bool): Token {
    if namespace then NamespaceHead(false) else ClassHead
  }

  function OpenTokens(o: Opener): seq<Token> {
    match o
    case BracedNamespace => [NamespaceHead(true)]
    case Headed(namespace, externC, matchesAsm) => [Head(namespace), OpenBrace(externC, matchesAsm)]
    case Braced(externC, matchesAsm) => [OpenBrace(externC, matchesAsm)]
  }

  function PieceTokens(p: Piece): seq<Token>
    decreases p
  {
    match p
    case Block(o, body) => OpenTokens(o) + TextTokens(body) + [CloseBrace]
    case Forward(namespace) => [Head(namespace), EndStatement]
    case Statement => [EndStatement]
  }

  function TextTokens(ps: seq<Piece>): seq<Token>
    decreases ps
  {
    if ps == [] then [] else TextTokens(Front(ps)) + PieceTokens(Last(ps))
  }

  /** Some text and then an opener whose block is not closed. */
  datatype Unclosed = Unclosed(before: seq<Piece>, opener: Opener)

  function UnclosedTokens(path: seq<Unclosed>): seq<Token> {
    if path == [] then []
    else UnclosedTokens(Front(path)) + TextTokens(Last(path).before) + OpenTokens(Last(path).opener)
  }

  /** The block that an opener stands for. */
  function Opened(o: Opener): BlockValue {
    match o
    case BracedNamespace => BlockValue(Namespace, true, 0, NoAsm)
    case Headed(namespace, _, _) => BlockValue(if namespace then Namespace else Class, true, 0, NoAsm)
    case Braced(externC, matchesAsm) =>
      if externC then BlockValue(ExternC, true, 0, NoAsm)
      else BlockValue(Generic, true, 0, if matchesAsm then BlockAsm else NoAsm)
  }

  function OpenBlocks(path: seq<Unclosed>): (r: seq<BlockValue>)
    ensures |r| == |path|
  {
    if path == [] then [] else OpenBlocks(Front(path)) + [Opened(Last(path).opener)]
  }

  // ---------- single tokens

  /** The innermost block, if any, has its brace and no open parentheses. */
  predicate Ready(s: seq<BlockValue>) {
    s == [] || (Last(s).seenOpenBrace && Last(s).openParentheses == 0)
  }

  /**
    A closing brace takes off the innermost block, of whatever kind, and only that. A
    semicolon or a closing parenthesis does so exactly when its brace has not come.
   */
  lemma TakesOff(s: seq<BlockValue>, v: BlockValue)
    ensures ApplyToken(s + [v], CloseBrace) == s
    ensures ApplyToken(s + [v], EndStatement) == s <==> !v.seenOpenBrace
    ensures ApplyToken(s + [v], EndStatement) == s + [v] <==> v.seenOpenBrace
  {
    FrontLast(s, v);
    assert |s + [v]| != |s|;
  }

  /** Inside open parentheses class heads and closing parentheses change nothing. */
  lemma {:induction false} InArguments(s: seq<BlockValue>, ts: seq<Token>)
    requires s != [] && Last(s).seenOpenBrace && Last(s).openParentheses != 0
    requires forall i | 0 <= i < |ts| :: ts[i] == ClassHead || ts[i] == EndStatement
    ensures ApplyTokens(s, ts) == s
  {
    if ts != [] {
      InArguments(s, Front(ts));
    }
  }

  lemma {:induction false} TokensJoin(s: seq<BlockValue>, a: seq<Token>, b: seq<Token>)
    ensures ApplyTokens(s, a + b) == ApplyTokens(ApplyTokens(s, a), b)
  {
    if b == [] {
      assert a + b == a;
    } else {
      TokensJoin(s, a, Front(b));
      assert Front(a + b) == a + Front(b) && Last(a + b) == Last(b);
    }
  }

  lemma TokenLast(s: seq<BlockValue>, ts: seq<Token>, t: Token)
    ensures ApplyTokens(s, ts + [t]) == ApplyToken(ApplyTokens(s, ts), t)
  {
    FrontLast(ts, t);
  }

  lemma OneToken(s: seq<BlockValue>, t: Token)
    ensures ApplyTokens(s, [t]) == ApplyToken(s, t)
  {
    assert [] + [t] == [t];
    TokenLast(s, [], t);
  }

  lemma TwoTokens(s: seq<BlockValue>, t: Token, u: Token)
    ensures ApplyTokens(s, [t, u]) == ApplyToken(ApplyToken(s, t), u)
  {
    OneToken(s, t);
    TokenLast(s, [t], u);
    assert [t] + [u] == [t, u];
  }

  // ---------- text that is read at one go

  lemma Opens(s: seq<BlockValue>, o: Opener)
    requires Ready(s)
    ensures ApplyTokens(s, OpenTokens(o)) == s + [Opened(o)]
  {
    match o {
      case BracedNamespace => OneToken(s, NamespaceHead(true));
      case Headed(namespace, externC, matchesAsm) =>
        TwoTokens(s, Head(namespace), OpenBrace(externC, matchesAsm));
        FrontLast(s, BlockValue(if namespace then Namespace else Class, false, 0, NoAsm));
      case Braced(externC, matchesAsm) => OneToken(s, OpenBrace(externC, matchesAsm));
    }
  }

  /** A piece of text gives back the stack, whatever it holds. */
  lemma {:induction false} PieceBalanced(s: seq<BlockValue>, p: Piece)
    requires Ready(s)
    ensures ApplyTokens(s, PieceTokens(p)) == s
    decreases p
  {
    match p {
      case Block(o, body) =>
        Opens(s, o);
        FrontLast(s, Opened(o));
        TextBalanced(s + [Opened(o)], body);
        TokensJoin(s, OpenTokens(o), TextTokens(body));
        TokenLast(s, OpenTokens(o) + TextTokens(body), CloseBrace);
        TakesOff(s, Opened(o));
      case Forward(namespace) =>
        TwoTokens(s, Head(namespace), EndStatement);
        TakesOff(s, BlockValue(if namespace then Namespace else Class, false, 0, NoAsm));
      case Statement =>
        OneToken(s, EndStatement);
    }
  }

  lemma {:induction false} TextBalanced(s: seq<BlockValue>, ps: seq<Piece>)
    requires Ready(s)
    ensures ApplyTokens(s, TextTokens(ps)) == s
    decreases ps
  {
    if ps != [] {
      TextBalanced(s, Front(ps));
      PieceBalanced(s, Last(ps));
      TokensJoin(s, TextTokens(Front(ps)), PieceTokens(Last(ps)));
    }
  }

  lemma {:induction false} UnclosedNext(s: seq<BlockValue>, ts: seq<Token>, blocks: seq<BlockValue>, u: Unclosed)
    requires ApplyTokens(s, ts) == s + blocks && Ready(s + blocks)
    ensures var more := s + (blocks + [Opened(u.opener)]);
            Ready(more) && ApplyTokens(s, ts + TextTokens(u.before) + OpenTokens(u.opener)) == more
  {
    TextBalanced(s + blocks, u.before);
    Opens(s + blocks, u.opener);
    TokensJoin(s, ts, TextTokens(u.before));
    TokensJoin(s, ts + TextTokens(u.before), OpenTokens(u.opener));
    FrontLast(s + blocks, Opened(u.opener));
    assert s + (blocks + [Opened(u.opener)]) == s + blocks + [Opened(u.opener)];
  }

  lemma {:induction false} UnclosedStay(s: seq<BlockValue>, path: seq<Unclosed>)
    requires Ready(s)
    ensures Ready(s + OpenBlocks(path)) && ApplyTokens(s, UnclosedTokens(path)) == s + OpenBlocks(path)
  {
    if path == [] {
      assert s + [] == s;
    } else {
      UnclosedStay(s, Front(path));
      UnclosedNext(s, UnclosedTokens(Front(path)), OpenBlocks(Front(path)), Last(path));
    }
  }

  /**
    The tokens of a text leave exactly the blocks that it leaves open, in order, each of the
    kind of its opener, on top of what there was. So the height of the stack is the number
    of blocks opened less the number closed.
   */
  lemma {:induction false} OpenBlocksStay(s: seq<BlockValue>, path: seq<Unclosed>, rest: seq<Piece>)
    requires Ready(s)
    ensures ApplyTokens(s, UnclosedTokens(path) + TextTokens(rest)) == s + OpenBlocks(path)
  {
    UnclosedStay(s, path);
    TextBalanced(s + OpenBlocks(path), rest);
    TokensJoin(s, UnclosedTokens(path), TextTokens(rest));
  }

  /** The least height is one that the stack has, and it never has a smaller one. */
  lemma {:induction false} LowestExactly(s: seq<BlockValue>, ts: seq<Token>) returns (at: nat)
    ensures at <= |ts| && |ApplyTokens(s, ts[..at])| == Lowest(s, ts)
    ensures forall k | 0 <= k <= |ts| :: Lowest(s, ts) <= |ApplyTokens(s, ts[..k])|
  {
    assert ts[..|ts|] == ts;
    if ts == [] {
      at := 0;
    } else {
      at := LowestExactly(s, Front(ts));
      forall k | 0 <= k <= |ts|
        ensures Lowest(s, ts) <= |ApplyTokens(s, ts[..k])|
      {
        if k < |ts| {
          assert ts[..k] == Front(ts)[..k];
        }
      }
      assert ts[..at] == Front(ts)[..at];
      if |ApplyTokens(s, ts)| < Lowest(s, Front(ts)) {
        at := |ts|;
      }
    }
  }

  /** For every run: only classes and namespaces are ever without their brace. */
  lemma {:induction false} OnlyHeadsWait(s: seq<BlockValue>, ts: seq<Token>)
    requires forall v | v in s && !v.seenOpenBrace :: v.kind == Class || v.kind == Namespace
    ensures forall v | v in ApplyTokens(s, ts) && !v.seenOpenBrace :: v.kind == Class || v.kind == Namespace
  {
    if ts != [] {
      OnlyHeadsWait(s, Front(ts));
    }
  }

  // ---------- text that is spread over a file

  /** The same kinds of blocks, with and without their braces; their counts may differ. */
  ghost predicate SameBlocks(s: seq<BlockValue>, b: seq<BlockValue>) {
    |s| == |b| && forall i | 0 <= i < |s| :: s[i].kind == b[i].kind && s[i].seenOpenBrace == b[i].seenOpenBrace
  }

  ghost predicate NoneOpen(b: seq<BlockValue>) {
    forall i | 0 <= i < |b| :: b[i].openParentheses == 0
  }

  function NoParentheses(s: seq<BlockValue>): (b: seq<BlockValue>)
    ensures SameBlocks(s, b) && NoneOpen(b)
  {
    seq(|s|, i requires 0 <= i < |s| => s[i].(openParentheses := 0))
  }

  /** A class head inside open parentheses is taken for an argument. */
  predicate Heeded(s: seq<BlockValue>, t: Token) {
    t.ClassHead? ==> s == [] || Last(s).openParentheses == 0
  }

  function HeededTokens(s: seq<BlockValue>, ts: seq<Token>): seq<Token> {
    if ts == [] then []
    else
      var before := ApplyTokens(s, Front(ts));
      HeededTokens(s, Front(ts)) + if Heeded(before, Last(ts)) then [Last(ts)] else []
  }

  /** The tokens in the first branches of a file, but for class heads inside parentheses. */
  ghost function HeededIn(s: seq<BlockValue>, lines: seq<SourceLine>): seq<Token> {
    if lines == [] then []
    else if InFirstBranches(Flags(AsLines(lines)))
    then HeededIn(s, Front(lines)) + HeededOn(FirstBranchesOnly(s, AsLines(Front(lines))), Last(lines))
    else HeededIn(s, Front(lines))
  }

  function HeededOn(s: seq<BlockValue>, line: SourceLine): seq<Token> {
    HeededTokens(CountParentheses(s, line.change, line.matchesAsm), line.tokens)
  }

  lemma SameToken(s: seq<BlockValue>, b: seq<BlockValue>, t: Token)
    requires SameBlocks(s, b) && NoneOpen(b)
    ensures Heeded(s, t) ==> SameBlocks(ApplyToken(s, t), ApplyToken(b, t)) && NoneOpen(ApplyToken(b, t))
    ensures !Heeded(s, t) ==> ApplyToken(s, t) == s
  {
  }

  /** The counts in the blocks matter to no other token. */
  lemma {:induction false} SameTokens(s: seq<BlockValue>, b: seq<BlockValue>, ts: seq<Token>)
    requires SameBlocks(s, b) && NoneOpen(b)
    ensures var r := ApplyTokens(b, HeededTokens(s, ts)); SameBlocks(ApplyTokens(s, ts), r) && NoneOpen(r)
  {
    if ts != [] {
      var heeded := HeededTokens(s, Front(ts));
      SameTokens(s, b, Front(ts));
      SameToken(ApplyTokens(s, Front(ts)), ApplyTokens(b, heeded), Last(ts));
      TokenLast(b, heeded, Last(ts));
      assert heeded + [] == heeded;
    }
  }

  /** A line in first branches, after the tokens heeded before it. */
  lemma {:induction false} SameLine(before: seq<BlockValue>, b: seq<BlockValue>, heeded: seq<Token>, line: SourceLine)
    requires SameBlocks(before, ApplyTokens(b, heeded)) && NoneOpen(ApplyTokens(b, heeded))
    ensures var r := ApplyTokens(b, heeded + HeededOn(before, line));
            SameBlocks(AsLine(line).effect(before), r) && NoneOpen(r)
  {
    var counted := CountParentheses(before, line.change, line.matchesAsm);
    assert SameBlocks(counted, before);
    SameTokens(counted, ApplyTokens(b, heeded), line.tokens);
    TokensJoin(b, heeded, HeededTokens(counted, line.tokens));
  }

  lemma AsLinesLast(lines: seq<SourceLine>)
    requires lines != []
    ensures AsLines(lines) == AsLines(Front(lines)) + [AsLine(Last(lines))]
  {
  }

  lemma {:induction false} FirstBranchesNext(s: seq<BlockValue>, lines: seq<SourceLine>)
    requires lines != []
    ensures var before := FirstBranchesOnly(s, AsLines(Front(lines)));
            FirstBranchesOnly(s, AsLines(lines)) ==
            if InFirstBranches(Flags(AsLines(lines))) then AsLine(Last(lines)).effect(before) else before
  {
    AsLinesLast(lines);
    FirstBranchesLast(s, AsLines(lines), AsLines(Front(lines)), AsLine(Last(lines)));
  }

  lemma {:induction false} SameFile(s: seq<BlockValue>, b: seq<BlockValue>, lines: seq<SourceLine>)
    requires SameBlocks(s, b) && NoneOpen(b)
    ensures var r := ApplyTokens(b, HeededIn(s, lines));
            SameBlocks(FirstBranchesOnly(s, AsLines(lines)), r) && NoneOpen(r)
  {
    if lines == [] {
      assert AsLines(lines) == [];
    } else {
      SameFile(s, b, Front(lines));
      FirstBranchesNext(s, lines);
      if InFirstBranches(Flags(AsLines(lines))) {
        SameLine(FirstBranchesOnly(s, AsLines(Front(lines))), b, HeededIn(s, Front(lines)), Last(lines));
      }
    }
  }

  lemma SameBelow(stack: seq<BlockValue>, s: seq<BlockValue>, b: seq<BlockValue>, added: seq<BlockValue>)
    requires SameBlocks(stack, b + added) && SameBlocks(s, b)
    ensures SameBlocks(stack, s + added)
  {
    forall i | 0 <= i < |stack|
      ensures stack[i].kind == (s + added)[i].kind && stack[i].seenOpenBrace == (s + added)[i].seenOpenBrace
    {
      assert (b + added)[i] == if i < |b| then b[i] else added[i - |b|];
    }
  }

  /**
    For every file, however its text is broken into lines and whatever its parentheses do:
    wherever every open conditional is in its first branch, the stack holds what was there
    before and then one block for each opener in first branches that is not closed, of its
    kind, in order.
   */
  lemma {:induction false} FileBlocks(s: seq<BlockValue>, lines: seq<SourceLine>, path: seq<Unclosed>, rest: seq<Piece>)
    requires s == [] || Last(s).seenOpenBrace
    requires InFirstBranches(Flags(AsLines(lines)))
    requires HeededIn(s, lines) == UnclosedTokens(path) + TextTokens(rest)
    ensures SameBlocks(Run(Nest(s, []), AsLines(lines)).stack, s + OpenBlocks(path))
  {
    AsIfFirstBranches(s, AsLines(lines));
    var b := NoParentheses(s);
    SameFile(s, b, lines);
    OpenBlocksStay(b, path, rest);
    SameBelow(Run(Nest(s, []), AsLines(lines)).stack, s, b, OpenBlocks(path));
  }

  // ---------- the counts of the innermost block

  /** What a line does to the counts: the parentheses it opens less those it closes, and whether it says asm. */
  datatype Counts = Counts(change: int, matchesAsm: bool)

  function CountLines(v: BlockValue, cs: seq<Counts>): BlockValue {
    if cs == [] then v else CountTop(CountLines(v, Front(cs)), Last(cs).change, Last(cs).matchesAsm)
  }

  function CountStack(s: seq<BlockValue>, cs: seq<Counts>): seq<BlockValue> {
    if cs == [] then s else CountParentheses(CountStack(s, Front(cs)), Last(cs).change, Last(cs).matchesAsm)
  }

  /** Lines that only count leave all blocks below the innermost one as they are. */
  lemma {:induction false} CountsOnTop(s: seq<BlockValue>, v: BlockValue, cs: seq<Counts>)
    ensures CountStack(s + [v], cs) == s + [CountLines(v, cs)] && CountStack([], cs) == []
  {
    if cs != [] {
      CountsOnTop(s, v, Front(cs));
      FrontLast(s, CountLines(v, Front(cs)));
    }
  }

  function Sum(cs: seq<Counts>): int {
    if cs == [] then 0 else Sum(Front(cs)) + Last(cs).change
  }

  /** The k-th line brings the count to one and says asm. */
  ghost predicate EntersAt(v: BlockValue, cs: seq<Counts>, k: nat)
    requires k < |cs|
  {
    cs[k].change != 0 && v.openParentheses + Sum(cs[..k + 1]) == 1 && cs[k].matchesAsm
  }

  ghost predicate OpenAfter(v: BlockValue, cs: seq<Counts>, k: nat)
    requires k < |cs|
  {
    v.openParentheses + Sum(cs[..k + 1]) != 0
  }

  /** From the k-th line on, the count does not come to zero. */
  ghost predicate StaysOpen(v: BlockValue, cs: seq<Counts>, k: nat) {
    forall j: nat | k <= j < |cs| :: OpenAfter(v, cs, j)
  }

  /** Inline assembly was entered, or was on from the start, and the count has not been zero since. */
  ghost predicate AsmOpen(v: BlockValue, cs: seq<Counts>) {
    || (v.inlineAsm == InsideAsm && StaysOpen(v, cs, 0))
    || exists k: nat | k < |cs| :: EntersAt(v, cs, k) && StaysOpen(v, cs, k + 1)
  }

  lemma {:induction false} SameBefore(v: BlockValue, cs: seq<Counts>, k: nat)
    requires k < |cs| - 1
    ensures OpenAfter(v, cs, k) == OpenAfter(v, Front(cs), k)
    ensures EntersAt(v, cs, k) == EntersAt(v, Front(cs), k)
  {
    assert cs[..k + 1] == Front(cs)[..k + 1];
  }

  lemma {:induction false} OpenNext(v: BlockValue, cs: seq<Counts>, k: nat)
    requires k < |cs|
    ensures StaysOpen(v, cs, k) <==> StaysOpen(v, Front(cs), k) && OpenAfter(v, cs, |cs| - 1)
  {
    forall j: nat | j < |cs| - 1
      ensures OpenAfter(v, cs, j) == OpenAfter(v, Front(cs), j)
    {
      SameBefore(v, cs, j);
    }
  }

  lemma {:induction false} EntryNext(v: BlockValue, cs: seq<Counts>, k: nat)
    requires k < |cs| - 1
    ensures EntersAt(v, cs, k) && StaysOpen(v, cs, k + 1) <==>
            EntersAt(v, Front(cs), k) && StaysOpen(v, Front(cs), k + 1) && OpenAfter(v, cs, |cs| - 1)
  {
    SameBefore(v, cs, k);
    OpenNext(v, cs, k + 1);
  }

  lemma {:induction false} AsmOpenNext(v: BlockValue, cs: seq<Counts>)
    requires cs != []
    ensures AsmOpen(v, cs) <==>
            (AsmOpen(v, Front(cs)) && OpenAfter(v, cs, |cs| - 1)) || EntersAt(v, cs, |cs| - 1)
  {
    var n := |cs| - 1;
    OpenNext(v, cs, 0);
    assert StaysOpen(v, cs, n + 1);
    if k: nat :| k < n && EntersAt(v, Front(cs), k) && StaysOpen(v, Front(cs), k + 1) {
      EntryNext(v, cs, k);
    }
    if k: nat :| k < n && EntersAt(v, cs, k) && StaysOpen(v, cs, k + 1) {
      EntryNext(v, cs, k);
    }
  }

  /**
    Over any lines, the count of the innermost block is the parentheses opened less those
    closed. It is inside inline assembly exactly when that was entered and the count has not
    been zero since, and at its end exactly on the line where the count becomes zero. A
    block of assembly stays one, and nothing else of the block changes.
   */
  lemma {:induction false} CountsExactly(v: BlockValue, cs: seq<Counts>)
    ensures var r := CountLines(v, cs);
            && r.openParentheses == v.openParentheses + Sum(cs)
            && r.kind == v.kind && r.seenOpenBrace == v.seenOpenBrace
            && (r.inlineAsm == BlockAsm <==> v.inlineAsm == BlockAsm)
            && (v.inlineAsm != BlockAsm ==> (r.inlineAsm == InsideAsm <==> AsmOpen(v, cs)))
            && (cs != [] && v.inlineAsm != BlockAsm ==>
                  (r.inlineAsm == EndAsm <==> AsmOpen(v, Front(cs)) && r.openParentheses == 0))
  {
    if cs != [] {
      CountsExactly(v, Front(cs));
      AsmOpenNext(v, cs);
      assert cs[..|cs| - 1 + 1] == cs;
    }
  }
}
