/** From a position in the text of a file to a line number, as assertions are located. */
module LineNumbers {
  import opened FileText

  /** Where each line starts, and where the text ends. */
  ghost function Offsets(lines: seq<string>): (r: seq<nat>)
    ensures |r| == |lines| + 1
  {
    seq(|lines| + 1, l requires 0 <= l <= |lines| => |Concat(lines[..l])|)
  }

  /** The loop that collects the offsets. */
  method LineOffsets(lines: seq<string>) returns (offsets: seq<nat>)
    ensures offsets == Offsets(lines)
  {
    offsets := [0];
    for l := 0 to |lines|
      invariant |offsets| == l + 1
      invariant forall k | 0 <= k <= l :: offsets[k] == |Concat(lines[..k])|
    {
      ConcatOneMore(lines, l);
      offsets := offsets + [offsets[|offsets| - 1] + |lines[l]|];
    }
  }

  lemma ConcatOneMore(lines: seq<string>, l: nat)
    requires l < |lines|
    ensures |Concat(lines[..l + 1])| == |Concat(lines[..l])| + |lines[l]|
  {
    ConcatSplit(lines[..l + 1], l);
    assert lines[..l + 1][..l] == lines[..l] && lines[..l + 1][l + 1..] == [];
  }

  /** bisect.bisect on an ascending list: the index after the last entry that is at most x. */
  function Bisect(offsets: seq<nat>, x: nat): (r: nat)
    ensures r <= |offsets|
  {
    if offsets == [] then 0
    else if offsets[|offsets| - 1] <= x then |offsets|
    else Bisect(offsets[..|offsets| - 1], x)
  }

  lemma {:induction false} BisectAt(offsets: seq<nat>, x: nat, r: nat)
    requires 0 < r <= |offsets| && offsets[r - 1] <= x
    requires forall k | r <= k < |offsets| :: x < offsets[k]
    ensures Bisect(offsets, x) == r
  {
    if r < |offsets| {
      BisectAt(offsets[..|offsets| - 1], x, r);
    }
  }

  lemma {:induction false} OffsetsAscend(lines: seq<string>, j: nat, k: nat)
    requires j <= k <= |lines|
    ensures Offsets(lines)[j] <= Offsets(lines)[k]
    decreases k - j
  {
    if j < k {
      OffsetsAscend(lines, j, k - 1);
      ConcatOneMore(lines, k - 1);
    }
  }

  /** getLineForPosition: the number of the line, counted from 1, that holds the position. */
  lemma LineForPosition(lines: seq<string>, l: nat, i: nat)
    requires IsPlace(lines, l, i)
    ensures Bisect(Offsets(lines), Offset(lines, l, i)) == l + 1
  {
    var offsets, x := Offsets(lines), Offset(lines, l, i);
    ConcatOneMore(lines, l);
    forall k | l + 1 <= k < |offsets|
      ensures x < offsets[k]
    {
      OffsetsAscend(lines, l + 1, k);
    }
    BisectAt(offsets, x, l + 1);
  }

  /**
    An assertion is located by the position just past its code. That gives the line of the
    code's last digit exactly when the digit is not the last character of its line.
   */
  lemma LineOfMatchEnd(lines: seq<string>, l: nat, i: nat)
    requires IsPlace(lines, l, i)
    ensures Bisect(Offsets(lines), Offset(lines, l, i) + 1) == l + 1 <==> i + 1 < |lines[l]|
  {
    var offsets, x := Offsets(lines), Offset(lines, l, i) + 1;
    if i + 1 < |lines[l]| {
      LineForPosition(lines, l, i + 1);
    } else {
      ConcatOneMore(lines, l);
      BisectAtLeast(offsets, x, l + 1);
    }
  }

  /** Lines as splitlines(True) gives them: each before the last ends in a newline. */
  ghost predicate SplitLines(lines: seq<string>) {
    forall l | 0 <= l < |lines| - 1 :: lines[l] != [] && lines[l][|lines[l]| - 1] == '\n'
  }

  /**
    So a code is located in its own line, unless it is the very end of a text without a
    final newline: then the line is one past the last.
   */
  lemma LineOfCode(lines: seq<string>, l: nat, i: nat)
    requires SplitLines(lines) && IsPlace(lines, l, i) && lines[l][i] != '\n'
    ensures Bisect(Offsets(lines), Offset(lines, l, i) + 1) ==
            if l == |lines| - 1 && i == |lines[l]| - 1 then |lines| + 1 else l + 1
  {
    LineOfMatchEnd(lines, l, i);
    if i + 1 == |lines[l]| {
      ConcatOneMore(lines, l);
      BisectAtLeast(Offsets(lines), Offset(lines, l, i) + 1, l + 1);
    }
  }

  /** The code at the end of a text of one line is located in a second line, which does not exist. */
  lemma LineOfCodeExample()
    ensures Bisect(Offsets(["f(7"]), |Concat(["f(7"])|) == 2
  {
    var lines := ["f(7"];
    LineOfCode(lines, 0, 2);
    ConcatSplit(lines, 0);
    assert lines[..0] == [] && lines[1..] == [];
  }

  lemma {:induction false} BisectAtLeast(offsets: seq<nat>, x: nat, k: nat)
    requires k < |offsets| && offsets[k] <= x
    ensures Bisect(offsets, x) > k
  {
    if k < |offsets| - 1 {
      BisectAtLeast(offsets[..|offsets| - 1], x, k);
    }
  }
}
