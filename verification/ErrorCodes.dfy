/**
  Assertion codes of the server: finding duplicates and zeros among the codes collected
  from the sources. A location is named by its position in the order of discovery, and
  codes is the list of the codes in that order.
 */
module ErrorCodes {
  import opened Seqs

  /** How often the code c occurs. */
  ghost function Count<C>(codes: seq<C>, c: C): nat {
    if codes == [] then 0 else Count(codes[..|codes| - 1], c) + if codes[|codes| - 1] == c then 1 else 0
  }

  lemma CountMore<C>(codes: seq<C>, x: C, c: C)
    ensures Count(codes + [x], c) == Count(codes, c) + if x == c then 1 else 0
  {
    assert (codes + [x])[..|codes|] == codes;
  }

  lemma {:induction false} CountPositive<C>(codes: seq<C>, c: C)
    ensures Count(codes, c) > 0 <==> c in codes
  {
    if codes != [] {
      var l := |codes| - 1;
      CountPositive(codes[..l], c);
      assert codes == codes[..l] + [codes[l]];
    }
  }

  /** The code of the i-th location occurs at least twice. */
  ghost predicate Duplicated<C>(codes: seq<C>, i: nat)
    requires i < |codes|
  {
    Count(codes, codes[i]) >= 2
  }

  /** A code occurs twice exactly when two locations have it. */
  lemma {:induction false} CountTwice<C>(codes: seq<C>, c: C)
    ensures Count(codes, c) >= 2 <==> exists i, j :: 0 <= i < j < |codes| && codes[i] == c && codes[j] == c
  {
    if codes != [] {
      var l := |codes| - 1;
      var front := codes[..l];
      CountTwice(front, c);
      CountPositive(front, c);
      if Count(codes, c) >= 2 {
        if Count(front, c) >= 2 {
          var i, j :| 0 <= i < j < l && front[i] == c && front[j] == c;
          assert codes[i] == c && codes[j] == c;
        } else {
          var i :| 0 <= i < l && front[i] == c;
          assert codes[i] == c && codes[l] == c;
        }
      }
      if i, j :| 0 <= i < j < |codes| && codes[i] == c && codes[j] == c {
        assert front[i] == c;
        if j < l {
          assert front[j] == c;
        }
      }
    }
  }

  /** The list idx holds, once each, exactly the locations whose code occurs again. */
  ghost predicate ExactlyDuplicates<C>(codes: seq<C>, idx: seq<nat>) {
    && (forall k | 0 <= k < |idx| :: idx[k] < |codes| && Duplicated(codes, idx[k]))
    && (forall k, m | 0 <= k < m < |idx| :: idx[k] != idx[m])
    && (forall i: nat | i < |codes| && Duplicated(codes, i) :: i in idx)
  }

  /** Location i gets listed at location t: itself, or, if it is the first with its code, the second with it. */
  ghost predicate ListedAt<C>(codes: seq<C>, i: nat, t: nat) {
    && i <= t < |codes| && codes[t] == codes[i]
    && (i == t <==> exists j :: 0 <= j < i && codes[j] == codes[i])
    && forall j | i < j < t :: codes[j] != codes[i]
  }

  /** The locations idx in the order in which they get listed, at the locations at. */
  ghost predicate Listing<C>(codes: seq<C>, idx: seq<nat>, at: seq<nat>) {
    && |at| == |idx|
    && (forall k | 0 <= k < |idx| :: ListedAt(codes, idx[k], at[k]))
    && (forall k, m | 0 <= k < m < |idx| :: at[k] < at[m] || (at[k] == at[m] && idx[k] < idx[m]))
  }

  ghost predicate InOrder<C>(codes: seq<C>, idx: seq<nat>) {
    exists at :: Listing(codes, idx, at)
  }

  lemma ListedStays<C>(codes: seq<C>, x: C, i: nat, t: nat)
    requires ListedAt(codes, i, t)
    ensures ListedAt(codes + [x], i, t)
  {
    assert forall j | 0 <= j < |codes| :: (codes + [x])[j] == codes[j];
  }

  ghost predicate FirstWith<C>(codes: seq<C>, c: C, i: nat) {
    i < |codes| && codes[i] == c && forall j | 0 <= j < i :: codes[j] != c
  }

  /** seen maps each code to its first location. */
  ghost predicate SeenFirst<C>(codes: seq<C>, seen: map<C, nat>) {
    && (forall i | 0 <= i < |codes| :: codes[i] in seen)
    && (forall c | c in seen :: FirstWith(codes, c, seen[c]))
  }

  /** dups holds the codes met more than once. */
  ghost predicate DupsExact<C>(codes: seq<C>, dups: set<C>) {
    && (forall i: nat | i < |codes| :: Duplicated(codes, i) <==> codes[i] in dups)
    && (forall c | c in dups :: c in codes)
  }

  lemma DuplicatedGrows<C>(codes: seq<C>, x: C, i: nat)
    requires i < |codes|
    ensures Duplicated(codes + [x], i) <==> Duplicated(codes, i) || codes[i] == x
  {
    assert (codes + [x])[i] == codes[i];
    CountMore(codes, x, codes[i]);
    CountPositive(codes, codes[i]);
  }

  lemma NewIsDuplicated<C>(codes: seq<C>, x: C)
    ensures Duplicated(codes + [x], |codes|) <==> x in codes
  {
    CountMore(codes, x, x);
    CountPositive(codes, x);
  }

  lemma SeenFirstGrows<C>(codes: seq<C>, seen: map<C, nat>, x: C)
    requires SeenFirst(codes, seen)
    ensures x in seen <==> x in codes
    ensures SeenFirst(codes + [x], if x in seen then seen else seen[x := |codes|])
  {
    var more := codes + [x];
    assert forall j | 0 <= j < |codes| :: more[j] == codes[j];
    assert forall c | c in seen :: FirstWith(more, c, seen[c]);
  }

  lemma DupsGrow<C>(codes: seq<C>, dups: set<C>, x: C)
    requires DupsExact(codes, dups)
    ensures DupsExact(codes + [x], if x in codes then dups + {x} else dups)
  {
    var more, n := codes + [x], |codes|;
    assert forall j | 0 <= j < n :: more[j] == codes[j];
    NewIsDuplicated(codes, x);
    forall i: nat | i < n
      ensures Duplicated(more, i) <==> Duplicated(codes, i) || codes[i] == x
    {
      DuplicatedGrows(codes, x, i);
    }
    assert forall c | c in codes :: c in more;
  }

  /** The list of duplicates grows by the locations that became duplicated. */
  lemma DuplicatesGrow<C>(codes: seq<C>, more: seq<C>, idx: seq<nat>, extra: seq<nat>)
    requires ExactlyDuplicates(codes, idx) && |codes| <= |more|
    requires forall i: nat | i < |more| :: Duplicated(more, i) <==> (i < |codes| && Duplicated(codes, i)) || i in extra
    requires forall k | 0 <= k < |extra| :: extra[k] < |more| && (extra[k] < |codes| ==> !Duplicated(codes, extra[k]))
    requires forall k, m | 0 <= k < m < |extra| :: extra[k] != extra[m]
    ensures ExactlyDuplicates(more, idx + extra)
  {
    var all := idx + extra;
    assert forall k | 0 <= k < |idx| :: all[k] == idx[k];
    assert forall k | 0 <= k < |extra| :: all[|idx| + k] == extra[k] && extra[k] in extra;
    forall i: nat | i < |more| && Duplicated(more, i)
      ensures i in all
    {
      if i in extra {
        var k :| 0 <= k < |extra| && extra[k] == i;
        assert all[|idx| + k] == i;
      } else {
        var k :| 0 <= k < |idx| && idx[k] == i;
        assert all[k] == i;
      }
    }
  }

  /** What checkDups adds to the errors for a code x at the next location. */
  function NewErrors<C>(seen: map<C, nat>, dups: set<C>, x: C, n: nat): seq<nat> {
    if x !in seen then [] else if x in dups then [n] else [seen[x], n]
  }

  /** Which locations a code x, met once more, turns into duplicates. */
  lemma BecomesDuplicated<C>(codes: seq<C>, seen: map<C, nat>, dups: set<C>, x: C, i: nat)
    requires SeenFirst(codes, seen) && DupsExact(codes, dups) && i < |codes|
    ensures codes[i] == x && !Duplicated(codes, i) <==> x in seen && x !in dups && i == seen[x]
  {
    if x in seen {
      assert FirstWith(codes, x, seen[x]);
      CountTwice(codes, x);
    }
  }

  lemma DuplicatedAfter<C>(codes: seq<C>, seen: map<C, nat>, dups: set<C>, x: C, i: nat)
    requires SeenFirst(codes, seen) && DupsExact(codes, dups) && i <= |codes|
    ensures Duplicated(codes + [x], i) <==>
            (i < |codes| && Duplicated(codes, i)) || i in NewErrors(seen, dups, x, |codes|)
  {
    SeenFirstGrows(codes, seen, x);
    if i < |codes| {
      DuplicatedGrows(codes, x, i);
      BecomesDuplicated(codes, seen, dups, x, i);
    } else {
      NewIsDuplicated(codes, x);
    }
  }

  lemma NewErrorsAreNew<C>(codes: seq<C>, seen: map<C, nat>, dups: set<C>, x: C)
    requires SeenFirst(codes, seen) && DupsExact(codes, dups)
    ensures var extra := NewErrors(seen, dups, x, |codes|);
            && (forall k | 0 <= k < |extra| :: extra[k] <= |codes|)
            && (forall k | 0 <= k < |extra| && extra[k] < |codes| :: !Duplicated(codes, extra[k]))
            && (forall k, m | 0 <= k < m < |extra| :: extra[k] != extra[m])
  {
    if x in seen {
      assert FirstWith(codes, x, seen[x]);
      BecomesDuplicated(codes, seen, dups, x, seen[x]);
    }
  }

  /** All that x adds gets listed at its own location, the first one before it. */
  lemma NewListed<C>(codes: seq<C>, seen: map<C, nat>, dups: set<C>, x: C, i: nat)
    requires SeenFirst(codes, seen) && DupsExact(codes, dups) && i in NewErrors(seen, dups, x, |codes|)
    ensures ListedAt(codes + [x], i, |codes|)
  {
    var more := codes + [x];
    assert forall j | 0 <= j < |codes| :: more[j] == codes[j];
    assert FirstWith(codes, x, seen[x]);
    if i == |codes| {
      assert more[seen[x]] == x;
    } else {
      forall j | i < j < |codes|
        ensures more[j] != x
      {
        BecomesDuplicated(codes, seen, dups, x, j);
        BecomesDuplicated(codes, seen, dups, x, i);
      }
    }
  }

  lemma ListingGrows<C>(codes: seq<C>, seen: map<C, nat>, dups: set<C>, idx: seq<nat>, x: C, extra: seq<nat>)
    requires SeenFirst(codes, seen) && DupsExact(codes, dups) && InOrder(codes, idx)
    requires extra == NewErrors(seen, dups, x, |codes|)
    ensures InOrder(codes + [x], idx + extra)
  {
    var at :| Listing(codes, idx, at);
    var at' := at + seq(|extra|, _ => |codes|);
    forall k | 0 <= k < |idx + extra|
      ensures ListedAt(codes + [x], (idx + extra)[k], at'[k])
    {
      if k < |idx| {
        ListedStays(codes, x, idx[k], at[k]);
      } else {
        assert extra[k - |idx|] in extra;
        NewListed(codes, seen, dups, x, extra[k - |idx|]);
      }
    }
    assert x in seen ==> FirstWith(codes, x, seen[x]);
    assert Listing(codes + [x], idx + extra, at');
  }

  lemma ErrorsGrow<C>(codes: seq<C>, seen: map<C, nat>, dups: set<C>, idx: seq<nat>, x: C)
    requires SeenFirst(codes, seen) && DupsExact(codes, dups) && ExactlyDuplicates(codes, idx)
    ensures ExactlyDuplicates(codes + [x], idx + NewErrors(seen, dups, x, |codes|))
  {
    var extra := NewErrors(seen, dups, x, |codes|);
    forall i: nat | i < |codes + [x]|
      ensures Duplicated(codes + [x], i) <==> (i < |codes| && Duplicated(codes, i)) || i in extra
    {
      DuplicatedAfter(codes, seen, dups, x, i);
    }
    NewErrorsAreNew(codes, seen, dups, x);
    DuplicatesGrow(codes, codes + [x], idx, extra);
  }

  /** A list of pairs that grows. */
  ghost predicate Rising(ps: seq<(nat, nat)>) {
    forall k, m | 0 <= k < m < |ps| :: ps[k].0 < ps[m].0 || (ps[k].0 == ps[m].0 && ps[k].1 < ps[m].1)
  }

  lemma NotEmpty(a: seq<(nat, nat)>)
    ensures a == [] <==> Elements(a) == {}
  {
    if a != [] {
      assert a[0] in Elements(a);
    }
  }

  /** The last pair is the greatest, and the others are the list without it. */
  lemma RisingLast(a: seq<(nat, nat)>)
    requires a != [] && Rising(a)
    ensures Last(a) in Elements(a) && Elements(Front(a)) == Elements(a) - {Last(a)} && Rising(Front(a))
    ensures forall p | p in Elements(a) :: p == Last(a) || p.0 < Last(a).0 || (p.0 == Last(a).0 && p.1 < Last(a).1)
  {
    assert a == Front(a) + [Last(a)];
    assert Last(a) !in Front(a);
  }

  lemma {:induction false} RisingUnique(a: seq<(nat, nat)>, b: seq<(nat, nat)>)
    requires Rising(a) && Rising(b) && Elements(a) == Elements(b)
    ensures a == b
    decreases |a|
  {
    NotEmpty(a);
    NotEmpty(b);
    if a != [] {
      RisingLast(a);
      RisingLast(b);
      assert Last(a) == Last(b);
      RisingUnique(Front(a), Front(b));
      assert a == Front(a) + [Last(a)] && b == Front(b) + [Last(b)];
    }
  }

  ghost function Pairs(at: seq<nat>, idx: seq<nat>): (r: seq<(nat, nat)>)
    requires |at| == |idx|
    ensures |r| == |idx| && forall k | 0 <= k < |idx| :: r[k] == (at[k], idx[k])
  {
    seq(|idx|, k requires 0 <= k < |idx| => (at[k], idx[k]))
  }

  lemma PairWithin<C>(codes: seq<C>, a: seq<nat>, at: seq<nat>, b: seq<nat>, bt: seq<nat>, p: (nat, nat))
    requires ExactlyDuplicates(codes, a) && Listing(codes, a, at)
    requires ExactlyDuplicates(codes, b) && Listing(codes, b, bt)
    requires p in Pairs(at, a)
    ensures p in Pairs(bt, b)
  {
    var k :| 0 <= k < |a| && Pairs(at, a)[k] == p;
    assert Duplicated(codes, a[k]) && a[k] in b;
    var m :| 0 <= m < |b| && b[m] == a[k];
    assert ListedAt(codes, a[k], at[k]) && ListedAt(codes, b[m], bt[m]);
    assert Pairs(bt, b)[m] == p;
  }

  /** So the list of the duplicates is determined, order and all. */
  lemma OrderDetermined<C>(codes: seq<C>, a: seq<nat>, b: seq<nat>)
    requires ExactlyDuplicates(codes, a) && InOrder(codes, a)
    requires ExactlyDuplicates(codes, b) && InOrder(codes, b)
    ensures a == b
  {
    var at :| Listing(codes, a, at);
    var bt :| Listing(codes, b, bt);
    forall p
      ensures p in Pairs(at, a) <==> p in Pairs(bt, b)
    {
      if p in Pairs(at, a) {
        PairWithin(codes, a, at, b, bt, p);
      }
      if p in Pairs(bt, b) {
        PairWithin(codes, b, bt, a, at, p);
      }
    }
    assert Elements(Pairs(at, a)) == Elements(Pairs(bt, b));
    RisingUnique(Pairs(at, a), Pairs(bt, b));
    assert forall k | 0 <= k < |a| :: Pairs(at, a)[k].1 == a[k] && Pairs(bt, b)[k].1 == b[k];
  }

  /** What the callback has gathered after some codes. */
  datatype Scan<C> = Scan(seen: map<C, nat>, dups: set<C>, errors: seq<nat>)

  ghost function ScanOf<C>(codes: seq<C>): Scan<C> {
    if codes == [] then Scan(map[], {}, [])
    else
      var s, x, n := ScanOf(Front(codes)), Last(codes), |codes| - 1;
      Scan(if x in s.seen then s.seen else s.seen[x := n],
           if x in s.seen then s.dups + {x} else s.dups,
           s.errors + NewErrors(s.seen, s.dups, x, n))
  }

  lemma {:induction false} ScanOfLast<C>(codes: seq<C>)
    requires codes != []
    ensures codes == Front(codes) + [Last(codes)]
    ensures var s, x, n := ScanOf(Front(codes)), Last(codes), |codes| - 1;
            && ScanOf(codes).seen == (if x in s.seen then s.seen else s.seen[x := n])
            && ScanOf(codes).dups == (if x in s.seen then s.dups + {x} else s.dups)
            && ScanOf(codes).errors == s.errors + NewErrors(s.seen, s.dups, x, n)
  {
  }

  lemma {:induction false} SeenOk<C>(codes: seq<C>)
    ensures SeenFirst(codes, ScanOf(codes).seen)
  {
    if codes != [] {
      SeenOk(Front(codes));
      ScanOfLast(codes);
      SeenFirstGrows(Front(codes), ScanOf(Front(codes)).seen, Last(codes));
    }
  }

  lemma {:induction false} SeenMeans<C>(codes: seq<C>, x: C)
    ensures x in ScanOf(codes).seen <==> x in codes
  {
    SeenOk(codes);
    SeenFirstGrows(codes, ScanOf(codes).seen, x);
  }

  lemma {:induction false} DupsOk<C>(codes: seq<C>)
    ensures DupsExact(codes, ScanOf(codes).dups)
  {
    if codes != [] {
      DupsOk(Front(codes));
      ScanOfLast(codes);
      SeenMeans(Front(codes), Last(codes));
      DupsGrow(Front(codes), ScanOf(Front(codes)).dups, Last(codes));
    }
  }

  lemma {:induction false} DuplicatesOk<C>(codes: seq<C>)
    ensures ExactlyDuplicates(codes, ScanOf(codes).errors)
  {
    if codes != [] {
      var front, s := Front(codes), ScanOf(Front(codes));
      DuplicatesOk(front);
      SeenOk(front);
      DupsOk(front);
      ScanOfLast(codes);
      ErrorsGrow(front, s.seen, s.dups, s.errors, Last(codes));
    }
  }

  lemma {:induction false} OrderOk<C>(codes: seq<C>)
    ensures InOrder(codes, ScanOf(codes).errors)
  {
    if codes == [] {
      assert Listing(codes, [], []);
    } else {
      var front, s := Front(codes), ScanOf(Front(codes));
      OrderOk(front);
      SeenOk(front);
      DupsOk(front);
      ScanOfLast(codes);
      ListingGrows(front, s.seen, s.dups, s.errors, Last(codes), NewErrors(s.seen, s.dups, Last(codes), |front|));
    }
  }

  /** The errors: the duplicates as they get listed, then once more the first location of the code zero. */
  ghost predicate ErrorsOf<C>(codes: seq<C>, zero: C, errors: seq<nat>) {
    && (zero !in codes ==> ExactlyDuplicates(codes, errors) && InOrder(codes, errors))
    && (zero in codes ==>
          && errors != [] && FirstWith(codes, zero, errors[|errors| - 1])
          && var dups := errors[..|errors| - 1]; ExactlyDuplicates(codes, dups) && InOrder(codes, dups))
  }

  /** A location is among the errors exactly when its code occurs again or is zero. */
  lemma ErrorsExactly<C>(codes: seq<C>, zero: C, errors: seq<nat>, i: nat)
    requires ErrorsOf(codes, zero, errors)
    ensures i in errors <==> i < |codes| && (Duplicated(codes, i) || codes[i] == zero)
  {
    if zero in codes {
      var dups, f := errors[..|errors| - 1], errors[|errors| - 1];
      assert errors == dups + [f];
      if i < |codes| && codes[i] == zero && i != f {
        CountTwice(codes, zero);
      }
    }
  }

  lemma {:induction false} ZeroFirst<C>(codes: seq<C>, zero: C)
    requires zero in ScanOf(codes).seen
    ensures FirstWith(codes, zero, ScanOf(codes).seen[zero])
  {
    SeenOk(codes);
  }

  lemma {:induction false} ScanEnd<C>(codes: seq<C>, zero: C, s: Scan<C>, errors: seq<nat>)
    requires s == ScanOf(codes) && errors == s.errors + if zero in s.seen then [s.seen[zero]] else []
    ensures ErrorsOf(codes, zero, errors)
  {
    DuplicatesOk(codes);
    OrderOk(codes);
    SeenMeans(codes, zero);
    if zero in s.seen {
      ZeroFirst(codes, zero);
      assert errors[..|errors| - 1] == s.errors;
    } else {
      assert errors == s.errors;
    }
  }

  /** The callback checkDups, for the code of the n-th location. */
  method CheckDups<C(==)>(seen: map<C, nat>, dups: set<C>, errors: seq<nat>, code: C, n: nat)
    returns (seen': map<C, nat>, dups': set<C>, errors': seq<nat>)
    ensures seen' == if code in seen then seen else seen[code := n]
    ensures dups' == if code in seen then dups + {code} else dups
    ensures errors' == errors + NewErrors(seen, dups, code, n)
  {
    seen', dups', errors' := seen, dups, errors;
    if code !in seen {
      seen' := seen[code := n];
    } else {
      if code !in dups {
        errors' := errors' + [seen[code]];
      }
      dups' := dups + {code};
      errors' := errors' + [n];
    }
  }

  /** readErrorCodes: the duplicates, then once more the first location of the code "0". */
  method ReadErrorCodes<C(==)>(codes: seq<C>, zero: C) returns (errors: seq<nat>)
    ensures ErrorsOf(codes, zero, errors)
  {
    var seen: map<C, nat>, dups: set<C> := map[], {};
    errors := [];
    for n := 0 to |codes|
      invariant Scan(seen, dups, errors) == ScanOf(codes[..n])
    {
      assert Front(codes[..n + 1]) == codes[..n];
      seen, dups, errors := CheckDups(seen, dups, errors, codes[n], n);
    }
    assert codes[..|codes|] == codes;
    if zero in seen {
      errors := errors + [seen[zero]];
    }
    ScanEnd(codes, zero, ScanOf(codes), errors);
  }

  /** checkErrorCodes holds exactly when the codes are pairwise distinct and none is "0". */
  method CheckErrorCodes<C(==)>(codes: seq<C>, zero: C) returns (ok: bool)
    ensures ok <==> zero !in codes && Distinct(codes)
  {
    var errors := ReadErrorCodes(codes, zero);
    NoErrorsExactly(codes, zero, errors);
    ok := |errors| == 0;
  }

  lemma NoErrorsExactly<C>(codes: seq<C>, zero: C, errors: seq<nat>)
    requires ErrorsOf(codes, zero, errors)
    ensures errors == [] <==> zero !in codes && Distinct(codes)
  {
    if i, j :| 0 <= i < j < |codes| && codes[i] == codes[j] {
      CountTwice(codes, codes[i]);
      assert Duplicated(codes, i);
    }
    if zero !in codes && errors != [] {
      assert Duplicated(codes, errors[0]);
      CountTwice(codes, codes[errors[0]]);
    }
  }
}
