/**
  Finite directed graphs, given as a map from each node to the set of its direct
  successors, with reachability by one or more edges.
 */
module Digraph {
  import opened Seqs

  ghost predicate Closed<T>(e: map<T, set<T>>) {
    forall n | n in e :: e[n] <= e.Keys
  }

  /** A walk of exactly k + 1 edges leads from a to b. */
  ghost predicate Walks<T>(e: map<T, set<T>>, a: T, b: T, k: nat)
    requires Closed(e) && a in e
    decreases k
  {
    if k == 0 then b in e[a] else exists c :: c in e[a] && Walks(e, c, b, k - 1)
  }

  ghost predicate Reaches<T>(e: map<T, set<T>>, a: T, b: T)
    requires Closed(e) && a in e
  {
    exists k: nat :: Walks(e, a, b, k)
  }

  /** The plain transitive closure: every node at the end of at least one edge. */
  ghost function Reach<T>(e: map<T, set<T>>, a: T): (r: set<T>)
    requires Closed(e) && a in e
  {
    set b | b in e.Keys && Reaches(e, a, b)
  }

  /** Some node on a cycle is n itself or reachable from n. */
  ghost predicate CycleBelow<T>(e: map<T, set<T>>, n: T)
    requires Closed(e) && n in e
  {
    exists m :: m in e && (m == n || Reaches(e, n, m)) && Reaches(e, m, m)
  }

  /** Each consecutive pair of p is joined by an edge. */
  ghost predicate Chain<T>(e: map<T, set<T>>, p: seq<T>) {
    && (forall i | 0 <= i < |p| :: p[i] in e)
    && (forall i | 0 < i < |p| :: p[i] in e[p[i - 1]])
  }

  /** A simple cycle, written with its first node repeated at the end. */
  ghost predicate SimpleCycle<T>(e: map<T, set<T>>, c: seq<T>) {
    && 2 <= |c|
    && Chain(e, c)
    && c[0] == c[|c| - 1]
    && Distinct(c[1..])
  }

  lemma EdgeReaches<T>(e: map<T, set<T>>, a: T, b: T)
    requires Closed(e) && a in e && b in e[a]
    ensures Reaches(e, a, b)
  {
    assert Walks(e, a, b, 0);
  }

  lemma EdgeThenReaches<T>(e: map<T, set<T>>, a: T, c: T, b: T)
    requires Closed(e) && a in e && c in e[a] && Reaches(e, c, b)
    ensures Reaches(e, a, b)
  {
    var k: nat :| Walks(e, c, b, k);
    assert Walks(e, a, b, k + 1);
  }

  /** The closure of a node is its direct successors and their closures. */
  lemma ReachUnfold<T>(e: map<T, set<T>>, a: T, b: T)
    requires Closed(e) && a in e
    ensures Reaches(e, a, b) <==> exists c :: c in e[a] && (b == c || Reaches(e, c, b))
  {
    if Reaches(e, a, b) {
      var k: nat :| Walks(e, a, b, k);
      if k == 0 {
        assert b in e[a];
      } else {
        var c :| c in e[a] && Walks(e, c, b, k - 1);
        assert Reaches(e, c, b);
      }
    }
    if c :| c in e[a] && (b == c || Reaches(e, c, b)) {
      if b == c {
        EdgeReaches(e, a, b);
      } else {
        EdgeThenReaches(e, a, c, b);
      }
    }
  }

  lemma {:induction false} WalkTransitive<T>(e: map<T, set<T>>, a: T, b: T, c: T, k: nat)
    requires Closed(e) && a in e && Walks(e, a, b, k) && b in e && Reaches(e, b, c)
    ensures Reaches(e, a, c)
    decreases k
  {
    if k == 0 {
      EdgeThenReaches(e, a, b, c);
    } else {
      var d :| d in e[a] && Walks(e, d, b, k - 1);
      WalkTransitive(e, d, b, c, k - 1);
      EdgeThenReaches(e, a, d, c);
    }
  }

  lemma ReachTransitive<T>(e: map<T, set<T>>, a: T, b: T, c: T)
    requires Closed(e) && a in e && b in e && Reaches(e, a, b) && Reaches(e, b, c)
    ensures Reaches(e, a, c)
  {
    var k: nat :| Walks(e, a, b, k);
    WalkTransitive(e, a, b, c, k);
  }

  lemma {:induction false} WalkWithin<T>(e: map<T, set<T>>, a: T, b: T, k: nat, s: set<T>)
    requires Closed(e) && a in e && Walks(e, a, b, k)
    requires e[a] <= s && (forall n | n in s && n in e :: e[n] <= s)
    ensures b in s
    decreases k
  {
    if k != 0 {
      var c :| c in e[a] && Walks(e, c, b, k - 1);
      WalkWithin(e, c, b, k - 1, s);
    }
  }

  /** Reach is the least set that holds the successors of a and is closed under edges. */
  lemma ReachLeast<T>(e: map<T, set<T>>, a: T, s: set<T>)
    requires Closed(e) && a in e
    requires e[a] <= s && (forall n | n in s && n in e :: e[n] <= s)
    ensures Reach(e, a) <= s
  {
    forall b | b in Reach(e, a)
      ensures b in s
    {
      var k: nat :| Walks(e, a, b, k);
      WalkWithin(e, a, b, k, s);
    }
  }

  lemma ReachClosed<T>(e: map<T, set<T>>, a: T)
    requires Closed(e) && a in e
    ensures e[a] <= Reach(e, a)
    ensures forall n | n in Reach(e, a) :: e[n] <= Reach(e, a)
  {
    forall b | b in e[a]
      ensures b in Reach(e, a)
    {
      EdgeReaches(e, a, b);
    }
    forall n, b | n in Reach(e, a) && b in e[n]
      ensures b in Reach(e, a)
    {
      EdgeReaches(e, n, b);
      ReachTransitive(e, a, n, b);
    }
  }

  /** A cycle lies below a node exactly when one lies below one of its successors. */
  lemma CycleBelowUnfold<T>(e: map<T, set<T>>, n: T)
    requires Closed(e) && n in e
    ensures CycleBelow(e, n) <==> exists c :: c in e[n] && CycleBelow(e, c)
  {
    if CycleBelow(e, n) {
      var m :| m in e && (m == n || Reaches(e, n, m)) && Reaches(e, m, m);
      ReachUnfold(e, n, m);
      var c :| c in e[n] && (m == c || Reaches(e, c, m));
      assert CycleBelow(e, c);
    }
    if c :| c in e[n] && CycleBelow(e, c) {
      var m :| m in e && (m == c || Reaches(e, c, m)) && Reaches(e, m, m);
      ReachUnfold(e, n, m);
    }
  }

  lemma {:induction false} ChainReaches<T>(e: map<T, set<T>>, p: seq<T>, i: nat, j: nat)
    requires Closed(e) && Chain(e, p) && i < j < |p|
    ensures Reaches(e, p[i], p[j])
    decreases j - i
  {
    if i + 1 == j {
      EdgeReaches(e, p[i], p[j]);
    } else {
      ChainReaches(e, p, i + 1, j);
      EdgeThenReaches(e, p[i], p[i + 1], p[j]);
    }
  }

  lemma ReachMonotone<T>(e: map<T, set<T>>, e': map<T, set<T>>, a: T)
    requires Closed(e) && Closed(e') && e.Keys == e'.Keys && a in e
    requires forall n | n in e :: e[n] <= e'[n]
    ensures Reach(e, a) <= Reach(e', a)
  {
    ReachClosed(e', a);
    ReachLeast(e, a, Reach(e', a));
  }

  /**
    New edges from n to the nodes of more leave the closure of m as it was exactly
    when m does not lead to n, or already reaches all of more.
   */
  lemma ReachAfterNewEdges<T>(e: map<T, set<T>>, e': map<T, set<T>>, n: T, more: set<T>, m: T)
    requires Closed(e) && n in e && m in e && more <= e.Keys
    requires e' == e[n := e[n] + more]
    ensures Closed(e')
    ensures Reach(e', m) == Reach(e, m) <==> (m == n || n in Reach(e, m) ==> more <= Reach(e, m))
  {
    assert e'.Keys == e.Keys;
    ReachMonotone(e, e', m);
    ReachClosed(e, m);
    ReachClosed(e', m);
    if m == n || n in Reach(e, m) {
      assert more <= e'[n] <= Reach(e', m);
    }
    if m == n || n in Reach(e, m) ==> more <= Reach(e, m) {
      ReachLeast(e', m, Reach(e, m));
    }
  }
}
