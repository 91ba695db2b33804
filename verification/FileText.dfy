/** The lines of a file as one text, and positions in it. */
module FileText {

  ghost function Concat<T>(xs: seq<seq<T>>): seq<T> {
    if xs == [] then [] else xs[0] + Concat(xs[1..])
  }

  lemma {:induction false} ConcatSplit<T>(xs: seq<seq<T>>, l: nat)
    requires l < |xs|
    ensures Concat(xs) == Concat(xs[..l]) + xs[l] + Concat(xs[l + 1..])
  {
    if l == 0 {
      assert xs[..0] == [];
    } else {
      ConcatSplit(xs[1..], l - 1);
      assert xs[1..][..l - 1] == xs[..l][1..];
      assert xs[1..][l..] == xs[l + 1..];
      assert Concat(xs[..l]) == xs[0] + Concat(xs[..l][1..]);
    }
  }

  /** The text of the file. */
  ghost function Flat(lines: seq<string>): string {
    Concat(lines)
  }

  /** There is a character p of line l. */
  predicate IsPlace<T>(lines: seq<seq<T>>, l: int, p: int) {
    0 <= l < |lines| && 0 <= p < |lines[l]|
  }

  /** The position in the text of the character i of line l. */
  ghost function Offset<T>(lines: seq<seq<T>>, l: nat, i: nat): nat
    requires l < |lines|
  {
    |Concat(lines[..l])| + i
  }

  lemma {:induction false} OffsetNextLine<T>(lines: seq<seq<T>>, l: nat)
    requires l + 1 < |lines|
    ensures Offset(lines, l + 1, 0) == Offset(lines, l, |lines[l]|)
  {
    ConcatSplit(lines[..l + 1], l);
    assert lines[..l + 1][..l] == lines[..l];
    assert Concat(lines[..l + 1][l + 1..]) == [];
  }

  lemma {:induction false} OffsetOrdered<T>(lines: seq<seq<T>>, l: nat, i: nat, l': nat, i': nat)
    requires IsPlace(lines, l, i) && l < l' < |lines|
    ensures Offset(lines, l, i) < Offset(lines, l', i')
  {
    OffsetNextLine(lines, l' - 1);
    if l < l' - 1 {
      OffsetOrdered(lines, l, i, l' - 1, |lines[l' - 1]|);
    }
  }

  lemma OffsetInjective<T>(lines: seq<seq<T>>, l: nat, i: nat, l': nat, i': nat)
    requires IsPlace(lines, l, i) && IsPlace(lines, l', i')
    ensures Offset(lines, l, i) == Offset(lines, l', i') <==> l == l' && i == i'
  {
    if l < l' {
      OffsetOrdered(lines, l, i, l', i');
    } else if l' < l {
      OffsetOrdered(lines, l', i', l, i);
    }
  }
}
