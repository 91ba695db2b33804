/** Retrieving the text between a bracket and its partner. */
module TextInside {
  import opened Brackets
  import opened FileText
  import opened LineScan
  import opened FilePairs

  datatype Inside = Some(text: string) | None

  /** The closing punctuation that an opening one asks for. */
  function CloserOf(o: char): char {
    if o == '(' then ')' else if o == '[' then ']' else '}'
  }

  function ClosersOf(st: seq<char>): (r: seq<char>)
    ensures |r| == |st|
  {
    seq(|st|, i requires 0 <= i < |st| => CloserOf(st[i]))
  }

  ghost predicate Unmatched(text: string, p: nat) {
    forall q: nat :: !Matching(text, p, q)
  }

  lemma ForwardAnswers(text: string, p: nat)
    requires p < |text| && IsOpen(text[p])
    ensures match Forward(text, p + 1, [text[p]])
            case Found(q) => Matching(text, p, q)
            case NotFound => Unmatched(text, p)
  {
    forall q: nat
      ensures Forward(text, p + 1, [text[p]]) == Found(q) <==> Matching(text, p, q)
    {
      ForwardExact(text, p, q);
    }
  }

  /**
    _GetTextInside, given where the match of the start pattern ended, if there was one.
    The text comes back exactly when the opener at that end has a partner, and is then
    what stands between the two.
   */
  method GetTextInside(text: string, found: Scan) returns (inside: Inside)
    requires found.Found? ==> 0 < found.pos <= |text| && IsOpen(text[found.pos - 1])
    ensures inside.None? <==> found.NotFound? || Unmatched(text, found.pos - 1)
    ensures inside.Some? ==> found.pos + |inside.text| < |text| &&
                             Matching(text, found.pos - 1, found.pos + |inside.text|) &&
                             inside.text == text[found.pos..found.pos + |inside.text|]
  {
    if found.NotFound? {
      return None;
    }
    var start := found.pos;
    var expected := [CloserOf(text[start - 1])];
    var position := start;
    ghost var goal := Forward(text, start, [text[start - 1]]);
    ghost var open := [text[start - 1]];
    ForwardAnswers(text, start - 1);
    while expected != [] && position < |text|
      invariant start <= position <= |text|
      invariant expected == ClosersOf(open) && forall i | 0 <= i < |open| :: IsOpen(open[i])
      invariant if open == [] then position > start && goal == Found(position - 1)
                else goal == Forward(text, position, open)
      decreases |text| - position
    {
      assert expected[|expected| - 1] == CloserOf(Top(open));
      if text[position] == expected[|expected| - 1] {
        expected := expected[..|expected| - 1];
        open := Pop(open);
      } else if IsClose(text[position]) {
        return None;
      } else if IsOpen(text[position]) {
        expected := expected + [CloserOf(text[position])];
        open := open + [text[position]];
      }
      position := position + 1;
    }
    if expected != [] {
      return None;
    }
    return Some(text[start..position - 1]);
  }

  /** On one line, the text comes back exactly when CloseExpression succeeds, up to the same end. */
  lemma AgreesWithCloseExpression(line: string, p: nat, q: nat)
    requires p < |line| && IsOpen(line[p])
    ensures CloseAt([line], 0, p) == At(0, q) <==> Matching(line, p, q)
    ensures CloseAt([line], 0, p) == Nowhere <==> Unmatched(line, p)
  {
    var lines := [line];
    assert lines[..0] == [] && Concat(lines[1..]) == [];
    assert Flat(lines) == line + [] == line;
    CloseOnText(lines, 0, p);
    ForwardExact(line, p, q);
    ForwardAnswers(line, p);
  }
}
