/**
  Plain matching of the brackets ( ) [ ] { }: a grammar of balanced text, a scan to the
  right from an opener and a scan to the left from a closer, and the proof that both
  scans find exactly the pairs that the grammar describes.
 */
module Brackets {

  predicate IsOpen(c: char) {
    c == '(' || c == '[' || c == '{'
  }

  predicate IsClose(c: char) {
    c == ')' || c == ']' || c == '}'
  }

  predicate Pairs(o: char, c: char) {
    (o == '(' && c == ')') || (o == '[' && c == ']') || (o == '{' && c == '}')
  }

  predicate IsBracket(c: char) {
    IsOpen(c) || IsClose(c)
  }

  // ---------- the grammar

  /** A derivation of balanced text: nothing, another character first, or a group first. */
  datatype Dyck =
    | Empty
    | Other(rest: Dyck)
    | Group(inner: Dyck, rest: Dyck)
  {
    /** The number of characters of the text. */
    ghost function Length(): nat {
      match this
      case Empty => 0
      case Other(rest) => 1 + rest.Length()
      case Group(inner, rest) => inner.Length() + rest.Length() + 2
    }

    /** This derives the text t[i..j]. */
    ghost predicate Derives(t: string, i: nat, j: nat) {
      && i <= j <= |t|
      && match this
         case Empty => i == j
         case Other(rest) => i < j && !IsBracket(t[i]) && rest.Derives(t, i + 1, j)
         case Group(inner, rest) =>
           var k := i + 1 + inner.Length();
           k < j && Pairs(t[i], t[k]) && inner.Derives(t, i + 1, k) && rest.Derives(t, k + 1, j)
    }

    /** The character x stands in the text t[i..], as derived here, outside every group. */
    ghost predicate AtTop(t: string, i: nat, x: char) {
      match this
      case Empty => false
      case Other(rest) => (i < |t| && t[i] == x) || rest.AtTop(t, i + 1, x)
      case Group(inner, rest) => rest.AtTop(t, i + 2 + inner.Length(), x)
    }

    ghost function Append(d: Dyck): Dyck {
      match this
      case Empty => d
      case Other(rest) => Other(rest.Append(d))
      case Group(inner, rest) => Group(inner, rest.Append(d))
    }
  }

  ghost predicate Balanced(t: string, i: nat, j: nat) {
    exists d: Dyck :: d.Derives(t, i, j)
  }

  /** t[p] opens a bracket that t[q] closes. */
  ghost predicate Matching(t: string, p: nat, q: nat) {
    p < q < |t| && Pairs(t[p], t[q]) && Balanced(t, p + 1, q)
  }

  lemma {:induction false} DerivesLength(d: Dyck, t: string, i: nat, j: nat)
    requires d.Derives(t, i, j)
    ensures j == i + d.Length()
  {
    match d {
      case Empty =>
      case Other(rest) => DerivesLength(rest, t, i + 1, j);
      case Group(inner, rest) => DerivesLength(rest, t, i + 2 + inner.Length(), j);
    }
  }

  lemma GroupDerives(t: string, i: nat, k: nat, j: nat, inner: Dyck, rest: Dyck, x: char)
    requires i < k < j <= |t|
    requires Pairs(t[i], t[k]) && inner.Derives(t, i + 1, k) && rest.Derives(t, k + 1, j)
    ensures Group(inner, rest).Derives(t, i, j)
    ensures Group(inner, rest).AtTop(t, i, x) <==> rest.AtTop(t, k + 1, x)
  {
    DerivesLength(inner, t, i + 1, k);
  }

  lemma {:induction false} AppendDerives(a: Dyck, b: Dyck, t: string, i: nat, k: nat, j: nat)
    requires a.Derives(t, i, k) && b.Derives(t, k, j)
    ensures a.Append(b).Derives(t, i, j)
  {
    match a {
      case Empty =>
      case Other(rest) => AppendDerives(rest, b, t, i + 1, k, j);
      case Group(inner, rest) => AppendDerives(rest, b, t, i + 2 + inner.Length(), k, j);
    }
  }

  // ---------- the scans

  datatype Scan = Found(pos: nat) | NotFound

  function Top(st: seq<char>): char
    requires st != []
  {
    st[|st| - 1]
  }

  function Pop(st: seq<char>): seq<char>
    requires st != []
  {
    st[..|st| - 1]
  }

  /** Scan right from i, with the openers in st still to be closed, for the last closer. */
  function Forward(t: string, i: nat, st: seq<char>): (r: Scan)
    requires st != [] && i <= |t|
    decreases |t| - i
  {
    if i == |t| then NotFound
    else if IsOpen(t[i]) then Forward(t, i + 1, st + [t[i]])
    else if !IsClose(t[i]) then Forward(t, i + 1, st)
    else if !Pairs(Top(st), t[i]) then NotFound
    else if |st| == 1 then Found(i)
    else Forward(t, i + 1, Pop(st))
  }

  /** Scan left from i - 1, with the closers in st still to be opened, for the last opener. */
  function Backward(t: string, i: nat, st: seq<char>): (r: Scan)
    requires st != [] && i <= |t|
    decreases i
  {
    if i == 0 then NotFound
    else if IsClose(t[i - 1]) then Backward(t, i - 1, st + [t[i - 1]])
    else if !IsOpen(t[i - 1]) then Backward(t, i - 1, st)
    else if !Pairs(t[i - 1], Top(st)) then NotFound
    else if |st| == 1 then Found(i - 1)
    else Backward(t, i - 1, Pop(st))
  }

  // ---------- balanced text leaves both scans where they were

  lemma {:induction false} ForwardOver(t: string, i: nat, j: nat, st: seq<char>, d: Dyck)
    requires st != [] && d.Derives(t, i, j)
    ensures Forward(t, i, st) == Forward(t, j, st)
    decreases d
  {
    match d {
      case Empty =>
      case Other(rest) => ForwardOver(t, i + 1, j, st, rest);
      case Group(inner, rest) =>
        var k := i + 1 + inner.Length();
        ForwardOver(t, i + 1, k, st + [t[i]], inner);
        assert Pop(st + [t[i]]) == st;
        ForwardOver(t, k + 1, j, st, rest);
    }
  }

  lemma {:induction false} BackwardOver(t: string, i: nat, j: nat, st: seq<char>, d: Dyck)
    requires st != [] && d.Derives(t, i, j)
    ensures Backward(t, j, st) == Backward(t, i, st)
    decreases d
  {
    match d {
      case Empty =>
      case Other(rest) => BackwardOver(t, i + 1, j, st, rest);
      case Group(inner, rest) =>
        var k := i + 1 + inner.Length();
        BackwardOver(t, k + 1, j, st, rest);
        BackwardOver(t, i + 1, k, st + [t[k]], inner);
        assert Pop(st + [t[k]]) == st;
    }
  }

  // ---------- what a scan passed before it closed its innermost bracket was balanced

  lemma {:induction false} ForwardSplits(t: string, i: nat, st: seq<char>) returns (d: Dyck, j: nat)
    requires st != [] && i <= |t| && Forward(t, i, st).Found?
    ensures i <= j < |t| && d.Derives(t, i, j) && Pairs(Top(st), t[j])
    ensures Forward(t, i, st) == if |st| == 1 then Found(j) else Forward(t, j + 1, Pop(st))
    decreases |t| - i
  {
    if IsOpen(t[i]) {
      var inner, k := ForwardSplits(t, i + 1, st + [t[i]]);
      assert Pop(st + [t[i]]) == st;
      d, j := ForwardSplits(t, k + 1, st);
      GroupDerives(t, i, k, j, inner, d, ' ');
      d := Group(inner, d);
    } else if IsClose(t[i]) {
      d, j := Empty, i;
    } else {
      d, j := ForwardSplits(t, i + 1, st);
      d := Other(d);
    }
  }

  lemma {:induction false} BackwardSplits(t: string, i: nat, st: seq<char>) returns (d: Dyck, j: nat)
    requires st != [] && i <= |t| && Backward(t, i, st).Found?
    ensures j < i && d.Derives(t, j + 1, i) && Pairs(t[j], Top(st))
    ensures Backward(t, i, st) == if |st| == 1 then Found(j) else Backward(t, j, Pop(st))
    decreases i
  {
    var c := t[i - 1];
    if IsClose(c) {
      var inner, k := BackwardSplits(t, i - 1, st + [c]);
      assert Pop(st + [c]) == st;
      GroupDerives(t, k, i - 1, i, inner, Empty, ' ');
      d, j := BackwardSplits(t, k, st);
      AppendDerives(d, Group(inner, Empty), t, j + 1, k, i);
      d := d.Append(Group(inner, Empty));
    } else if IsOpen(c) {
      d, j := Empty, i - 1;
    } else {
      d, j := BackwardSplits(t, i - 1, st);
      assert Other(Empty).Derives(t, i - 1, i);
      AppendDerives(d, Other(Empty), t, j + 1, i - 1, i);
      d := d.Append(Other(Empty));
    }
  }

  // ---------- the scans find exactly the matching bracket

  /** From an opener, the scan to the right ends at q exactly when q matches it. */
  lemma ForwardExact(t: string, p: nat, q: nat)
    requires p < |t| && IsOpen(t[p])
    ensures Forward(t, p + 1, [t[p]]) == Found(q) <==> Matching(t, p, q)
  {
    if Forward(t, p + 1, [t[p]]) == Found(q) {
      var d, j := ForwardSplits(t, p + 1, [t[p]]);
    }
    if Matching(t, p, q) {
      var d: Dyck :| d.Derives(t, p + 1, q);
      ForwardOver(t, p + 1, q, [t[p]], d);
    }
  }

  /** From a closer, the scan to the left ends at p exactly when p matches it. */
  lemma BackwardExact(t: string, p: nat, q: nat)
    requires q < |t| && IsClose(t[q])
    ensures Backward(t, q, [t[q]]) == Found(p) <==> Matching(t, p, q)
  {
    if Backward(t, q, [t[q]]) == Found(p) {
      var d, j := BackwardSplits(t, q, [t[q]]);
    }
    if Matching(t, p, q) {
      var d: Dyck :| d.Derives(t, p + 1, q);
      BackwardOver(t, p + 1, q, [t[q]], d);
    }
  }

  /** A bracket has at most one partner. */
  lemma PartnerUnique(t: string, p: nat, q: nat, p': nat, q': nat)
    requires Matching(t, p, q) && Matching(t, p', q')
    ensures p == p' <==> q == q'
  {
    if p == p' {
      ForwardExact(t, p, q);
      ForwardExact(t, p, q');
    }
    if q == q' {
      BackwardExact(t, p, q);
      BackwardExact(t, p', q);
    }
  }
}
