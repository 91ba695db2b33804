/**
  The library dependency tracker: a depth-first closure over build nodes that
  memoises its results on the nodes and reports dependency cycles.
 */
module Libdeps {
  import opened Seqs
  import opened Digraph

  datatype Cache<+T> = Unset | Cached(deps: set<T>)

  /** The attributes that the tracker keeps on a build node. */
  class Node {
    // Declared direct dependencies; null stands for an empty entry of the list.
    var direct: seq<Node?>
    var cached: Cache<Node>
    var exploring: bool

    constructor ()
      ensures direct == [] && cached == Unset && !exploring
    {
      direct, cached, exploring := [], Unset, false;
    }
  }

  /** What a query gives back: the dependencies, or the nodes of a cycle error. */
  datatype Outcome = Deps(deps: set<Node>) | CycleError(cycleNodes: seq<Node>)

  ghost function Children(direct: seq<Node?>): set<Node> {
    set c: Node | c in direct
  }

  ghost predicate WellFormed(graph: set<Node>)
    reads graph`direct
  {
    forall n | n in graph :: Children(n.direct) <= graph
  }

  ghost function Edges(graph: set<Node>): (e: map<Node, set<Node>>)
    requires WellFormed(graph)
    reads graph`direct
    ensures e.Keys == graph && Closed(e)
  {
    map n | n in graph :: Children(n.direct)
  }

  ghost function CachedNodes(graph: set<Node>): set<Node>
    reads graph`cached
  {
    set n | n in graph && n.cached.Cached?
  }

  /**
    Every cached value is the true closure of a node with no cycle below it, and what a
    cached node depends on directly is cached too.
   */
  ghost predicate CacheExact(graph: set<Node>, e: map<Node, set<Node>>)
    requires Closed(e) && e.Keys == graph
    reads graph`cached
  {
    && (forall n | n in graph && n.cached.Cached? :: n.cached.deps == Reach(e, n) && !CycleBelow(e, n))
    && ClosedUnder(e, CachedNodes(graph))
  }

  /** The successors of nodes of s are in s. */
  ghost predicate ClosedUnder(e: map<Node, set<Node>>, s: set<Node>) {
    forall n | n in s && n in e :: e[n] <= s
  }

  ghost predicate Idle(graph: set<Node>)
    reads graph`exploring
  {
    forall n | n in graph :: !n.exploring
  }

  /** path is the stack of nodes being explored, and it leads to n. */
  ghost predicate Exploring(graph: set<Node>, e: map<Node, set<Node>>, path: seq<Node>, n: Node)
    reads graph`exploring
  {
    && Chain(e, path + [n])
    && Distinct(path)
    && (forall m | m in graph :: m.exploring <==> m in path)
  }

  /** The witness is a simple cycle whose nodes are n or lie below n. */
  ghost predicate CycleWitness(e: map<Node, set<Node>>, n: Node, c: seq<Node>)
    requires Closed(e) && n in e
  {
    SimpleCycle(e, c) && (c[0] == n || Reaches(e, n, c[0]))
  }

  /** A witness still being unwound: a simple chain from n back to a node on path. */
  ghost predicate PartialWitness(e: map<Node, set<Node>>, n: Node, path: seq<Node>, c: seq<Node>) {
    && 1 <= |c|
    && c[0] == n
    && Chain(e, c)
    && c[|c| - 1] in path
    && (forall i, j | 0 <= i < j < |c| - 1 :: c[i] != c[j])
    && (forall i | 0 <= i < |c| - 1 :: c[i] !in path)
  }

  ghost predicate Witness(e: map<Node, set<Node>>, n: Node, path: seq<Node>, c: seq<Node>)
    requires Closed(e) && n in e
  {
    CycleWitness(e, n, c) || PartialWitness(e, n, path, c)
  }

  /** What every query keeps: the edges, the flags and each value already cached. */
  twostate predicate Kept(graph: set<Node>)
    reads graph
  {
    forall n | n in graph ::
      && n.direct == old(n.direct)
      && n.exploring == old(n.exploring)
      && (old(n.cached).Cached? ==> n.cached == old(n.cached))
  }

  lemma ChainPrepend(e: map<Node, set<Node>>, n: Node, c: seq<Node>)
    requires Closed(e) && n in e && Chain(e, c) && |c| >= 1 && c[0] in e[n]
    ensures Chain(e, [n] + c)
  {
    var d := [n] + c;
    forall i | 0 < i < |d|
      ensures d[i] in e[d[i - 1]]
    {
      assert d[i] == c[i - 1];
      if i > 1 {
        assert d[i - 1] == c[i - 2];
      }
    }
  }

  lemma PartialWitnessUnwinds(e: map<Node, set<Node>>, n: Node, child: Node, path: seq<Node>, c: seq<Node>)
    requires Closed(e) && n in e && child in e[n] && n !in path
    requires PartialWitness(e, child, path + [n], c)
    ensures |c| == 1 || c[0] != c[|c| - 1]
    ensures Witness(e, n, path, [n] + c)
  {
    var d := [n] + c;
    ChainPrepend(e, n, c);
    assert n in path + [n];
    assert forall m | m in path :: m in path + [n];
    assert forall i | 0 < i < |d| :: d[i] == c[i - 1];
    if c[|c| - 1] == n {
      assert d[1..] == c;
      assert Distinct(c);
    } else {
      assert PartialWitness(e, n, path, d);
    }
  }

  /** The node that unwinding adds in front, and the test that stops adding. */
  lemma WitnessUnwinds(e: map<Node, set<Node>>, n: Node, child: Node, path: seq<Node>, c: seq<Node>)
    requires Closed(e) && n in e && child in e[n] && n !in path
    requires Witness(e, child, path + [n], c)
    ensures |c| >= 1
    ensures Witness(e, n, path, if |c| == 1 || c[0] != c[|c| - 1] then [n] + c else c)
  {
    if PartialWitness(e, child, path + [n], c) {
      PartialWitnessUnwinds(e, n, child, path, c);
    } else {
      ReachUnfold(e, n, c[0]);
    }
  }

  lemma OnPathIsCyclic(e: map<Node, set<Node>>, path: seq<Node>, n: Node)
    requires Closed(e) && Chain(e, path + [n]) && n in path
    ensures n in e && CycleBelow(e, n)
    ensures PartialWitness(e, n, path, [n])
  {
    var i :| 0 <= i < |path| && path[i] == n;
    assert (path + [n])[|path|] in e;
    ChainReaches(e, path + [n], i, |path|);
  }

  /** deps holds the entries of done and all that they reach, and nothing else. */
  ghost predicate Gathered(e: map<Node, set<Node>>, done: seq<Node?>, deps: set<Node>)
    requires Closed(e) && Children(done) <= e.Keys
  {
    && (forall c | c in Children(done) :: c in deps && Reach(e, c) <= deps && !CycleBelow(e, c))
    && (forall m | m in deps :: exists c :: c in Children(done) && (m == c || m in Reach(e, c)))
  }

  lemma GatheredStep(e: map<Node, set<Node>>, done: seq<Node?>, deps: set<Node>, c: Node)
    requires Closed(e) && Children(done) <= e.Keys && Gathered(e, done, deps)
    requires c in e && !CycleBelow(e, c)
    ensures Children(done + [c]) == Children(done) + {c} && Gathered(e, done + [c], deps + {c} + Reach(e, c))
  {
    assert Children(done + [c]) == Children(done) + {c};
  }

  lemma GatheredAll(e: map<Node, set<Node>>, n: Node, direct: seq<Node?>, deps: set<Node>)
    requires Closed(e) && n in e && e[n] == Children(direct) && Gathered(e, direct, deps)
    ensures deps == Reach(e, n) && !CycleBelow(e, n)
  {
    CycleBelowUnfold(e, n);
    ReachClosed(e, n);
    forall c | c in e[n]
      ensures Reach(e, c) <= Reach(e, n)
    {
      ReachLeast(e, c, Reach(e, n));
    }
    forall m | m in Reach(e, n)
      ensures m in deps
    {
      ReachUnfold(e, n, m);
    }
  }

  lemma ChainExtend(e: map<Node, set<Node>>, path: seq<Node>, n: Node, child: Node)
    requires Closed(e) && Chain(e, path + [n]) && n in e && child in e[n]
    ensures Chain(e, path + [n] + [child])
  {
    assert (path + [n])[|path|] == n;
  }

  /** __get_libdeps: the cached value, computed and stored on first use. */
  method GetLibdeps(n: Node, ghost graph: set<Node>, ghost e: map<Node, set<Node>>, ghost path: seq<Node>)
    returns (r: Outcome)
    requires WellFormed(graph) && e == Edges(graph) && n in graph
    requires CacheExact(graph, e)
    requires Exploring(graph, e, path, n)
    modifies graph`cached, graph`exploring
    ensures Kept(graph) && CacheExact(graph, e) && old(CachedNodes(graph)) <= CachedNodes(graph)
    ensures forall m | m in path :: m.cached == old(m.cached)
    ensures r.Deps? <==> !CycleBelow(e, n)
    ensures r.Deps? ==> r.deps == Reach(e, n) && n.cached == Cached(r.deps)
    ensures r.CycleError? ==> Witness(e, n, path, r.cycleNodes)
    decreases graph - set m | m in path, 2
  {
    if n.cached.Unset? {
      r := ComputeLibdeps(n, graph, e, path);
      if r.Deps? {
        if n in path {
          OnPathIsCyclic(e, path, n);
        }
        n.cached := Cached(r.deps);
      }
    } else {
      r := Deps(n.cached.deps);
    }
  }

  /** __compute_libdeps: raise on a node being explored, else explore it and clear its flag. */
  method ComputeLibdeps(n: Node, ghost graph: set<Node>, ghost e: map<Node, set<Node>>, ghost path: seq<Node>)
    returns (r: Outcome)
    requires WellFormed(graph) && e == Edges(graph) && n in graph && n.cached.Unset?
    requires CacheExact(graph, e)
    requires Exploring(graph, e, path, n)
    modifies graph`cached, graph`exploring
    ensures Kept(graph) && CacheExact(graph, e) && old(CachedNodes(graph)) <= CachedNodes(graph)
    ensures n.cached.Unset? && forall m | m in path :: m.cached == old(m.cached)
    ensures r.Deps? <==> !CycleBelow(e, n)
    ensures r.Deps? ==> r.deps == Reach(e, n) && e[n] <= CachedNodes(graph)
    ensures r.CycleError? ==> Witness(e, n, path, r.cycleNodes)
    decreases graph - set m | m in path, 1
  {
    if n.exploring {
      OnPathIsCyclic(e, path, n);
      return CycleError([n]);
    }
    n.exploring := true;
    r := ExploreDirect(n, graph, e, path);
    n.exploring := false;
  }

  /** The guarded loop of __compute_libdeps, with its handler for a cycle error. */
  method ExploreDirect(n: Node, ghost graph: set<Node>, ghost e: map<Node, set<Node>>, ghost path: seq<Node>)
    returns (r: Outcome)
    requires WellFormed(graph) && e == Edges(graph) && n in graph && n.cached.Unset? && n !in path
    requires CacheExact(graph, e)
    requires Chain(e, path + [n]) && Distinct(path)
    requires forall m | m in graph :: m.exploring <==> m in path + [n]
    modifies graph`cached, graph`exploring
    ensures Kept(graph) && CacheExact(graph, e) && old(CachedNodes(graph)) <= CachedNodes(graph)
    ensures n.cached.Unset? && forall m | m in path :: m.cached == old(m.cached)
    ensures r.Deps? <==> !CycleBelow(e, n)
    ensures r.Deps? ==> r.deps == Reach(e, n) && e[n] <= CachedNodes(graph)
    ensures r.CycleError? ==> Witness(e, n, path, r.cycleNodes)
    decreases graph - set m | m in path, 0
  {
    ghost var inner := path + [n];
    assert (set m | m in inner) == (set m | m in path) + {n};
    assert n in inner && forall m | m in path :: m in inner;
    var direct := n.direct;
    var deps: set<Node> := {};
    ghost var explored: set<Node> := {};
    var i := 0;
    while i < |direct|
      invariant 0 <= i <= |direct|
      invariant CacheExact(graph, e) && Kept(graph)
      invariant forall m | m in inner :: m.cached == old(m.cached)
      invariant Gathered(e, direct[..i], deps)
      invariant Children(direct[..i]) == explored <= CachedNodes(graph)
      invariant old(CachedNodes(graph)) <= CachedNodes(graph)
    {
      var entry := direct[i];
      assert direct[..i + 1] == direct[..i] + [entry];
      i := i + 1;
      if entry == null {
        assert Children(direct[..i]) == Children(direct[..i - 1]);
        continue;
      }
      var child: Node := entry;
      ChainExtend(e, path, n, child);
      var below := GetLibdeps(child, graph, e, inner);
      if below.CycleError? {
        var c := below.cycleNodes;
        WitnessUnwinds(e, n, child, path, c);
        CycleBelowUnfold(e, n);
        return CycleError(if |c| == 1 || c[0] != c[|c| - 1] then [n] + c else c);
      }
      GatheredStep(e, direct[..i - 1], deps, child);
      deps := deps + {child} + below.deps;
      explored := explored + {child};
    }
    assert direct[..i] == direct;
    GatheredAll(e, n, direct, deps);
    r := Deps(deps);
  }

  /**
    A query from outside, with no node being explored: it gives the closure of n, or
    fails with a simple cycle below n exactly when there is one. Either way the flags
    are clear afterwards, the edges are as before and the cache is still exact.
   */
  method Query(n: Node, ghost graph: set<Node>) returns (r: Outcome)
    requires WellFormed(graph) && n in graph && Idle(graph)
    requires CacheExact(graph, Edges(graph))
    modifies graph`cached, graph`exploring
    ensures Idle(graph) && Kept(graph) && WellFormed(graph) && Edges(graph) == old(Edges(graph))
    ensures CacheExact(graph, Edges(graph))
    ensures r.CycleError? <==> CycleBelow(Edges(graph), n)
    ensures r.Deps? ==> r.deps == Reach(Edges(graph), n)
    ensures r.CycleError? ==> CycleWitness(Edges(graph), n, r.cycleNodes)
    ensures r.Deps? ==> n.cached == Cached(r.deps)
  {
    ghost var e := Edges(graph);
    r := GetLibdeps(n, graph, e, []);
  }

  /** The answer that a query must give on a graph whose edges are e. */
  ghost predicate Answers(e: map<Node, set<Node>>, n: Node, r: Outcome)
    requires Closed(e) && n in e
  {
    match r
    case Deps(deps) => deps == Reach(e, n) && !CycleBelow(e, n)
    case CycleError(c) => CycleWitness(e, n, c) && CycleBelow(e, n)
  }

  /** Any sequence of queries, failing ones included, is answered from the edges alone. */
  method QueryAll(ns: seq<Node>, ghost graph: set<Node>) returns (rs: seq<Outcome>)
    requires WellFormed(graph) && (forall n | n in ns :: n in graph) && Idle(graph)
    requires CacheExact(graph, Edges(graph))
    modifies graph`cached, graph`exploring
    ensures Idle(graph) && Kept(graph) && WellFormed(graph) && Edges(graph) == old(Edges(graph))
    ensures CacheExact(graph, Edges(graph))
    ensures |rs| == |ns| && forall i | 0 <= i < |ns| :: Answers(Edges(graph), ns[i], rs[i])
  {
    ghost var e := Edges(graph);
    rs := [];
    while |rs| < |ns|
      invariant |rs| <= |ns|
      invariant Idle(graph) && Kept(graph) && CacheExact(graph, e)
      invariant forall i | 0 <= i < |rs| :: Answers(e, ns[i], rs[i])
    {
      var r := Query(ns[|rs|], graph);
      rs := rs + [r];
    }
  }

  /** A cached closure survives new edges from n unless it depends on n and misses one of them. */
  lemma StaleExactly(graph: set<Node>, e: map<Node, set<Node>>, e': map<Node, set<Node>>, n: Node,
                     more: set<Node>, m: Node)
    requires Closed(e) && e.Keys == graph && CacheExact(graph, e)
    requires n in graph && more <= graph && e' == e[n := e[n] + more]
    requires m in graph && m.cached.Cached?
    ensures Closed(e') && e'.Keys == graph
    ensures m.cached.deps == Reach(e', m) <==>
            (m == n || n in m.cached.deps ==> more <= m.cached.deps)
  {
    assert m.cached.deps == Reach(e, m);
    ReachAfterNewEdges(e, e', n, more, m);
  }

  /** Whatever a cached node depends on is cached. */
  lemma DescendantsCached(graph: set<Node>, e: map<Node, set<Node>>, m: Node)
    requires Closed(e) && e.Keys == graph && CacheExact(graph, e) && m in graph && m.cached.Cached?
    ensures m.cached.deps <= CachedNodes(graph)
  {
    ReachLeast(e, m, CachedNodes(graph));
  }

  /** Each cached node that is n, or depends on n, already depends on all of more. */
  ghost predicate NothingNew(graph: set<Node>, n: Node, more: set<Node>)
    reads graph`cached
  {
    forall m | m in graph && m.cached.Cached? && (m == n || n in m.cached.deps) :: more <= m.cached.deps
  }

  /** New edges that tell no cached node anything new close no cycle through one, */
  lemma NoNewLoop(graph: set<Node>, e: map<Node, set<Node>>, e': map<Node, set<Node>>, n: Node,
                  more: set<Node>, x: Node)
    requires Closed(e) && e.Keys == graph && CacheExact(graph, e)
    requires n in graph && more <= graph && e' == e[n := e[n] + more]
    requires NothingNew(graph, n, more) && x in graph && x.cached.Cached?
    ensures Closed(e') && Reach(e', x) == Reach(e, x) && !Reaches(e', x, x)
  {
    StaleExactly(graph, e, e', n, more, x);
    assert x in Reach(e', x) <==> Reaches(e', x, x);
  }

  /** nor below one. */
  lemma NoNewCycle(graph: set<Node>, e: map<Node, set<Node>>, e': map<Node, set<Node>>, n: Node,
                   more: set<Node>, m: Node)
    requires Closed(e) && e.Keys == graph && CacheExact(graph, e)
    requires n in graph && more <= graph && e' == e[n := e[n] + more]
    requires NothingNew(graph, n, more) && m in graph && m.cached.Cached?
    ensures Closed(e') && !CycleBelow(e', m)
  {
    DescendantsCached(graph, e, m);
    NoNewLoop(graph, e, e', n, more, m);
    forall x | x in Reach(e', m)
      ensures !Reaches(e', x, x)
    {
      NoNewLoop(graph, e, e', n, more, x);
    }
  }

  /** The cache stays exact under new edges exactly when they tell no cached node anything new. */
  lemma CacheAfterNewEdges(graph: set<Node>, e: map<Node, set<Node>>, e': map<Node, set<Node>>, n: Node,
                           more: set<Node>)
    requires Closed(e) && e.Keys == graph && CacheExact(graph, e)
    requires n in graph && more <= graph && e' == e[n := e[n] + more]
    ensures Closed(e') && e'.Keys == graph
    ensures CacheExact(graph, e') <==> NothingNew(graph, n, more)
  {
    assert Closed(e') && e'.Keys == graph;
    if NothingNew(graph, n, more) {
      forall m | m in graph && m.cached.Cached?
        ensures m.cached.deps == Reach(e', m) && !CycleBelow(e', m) && e'[m] <= CachedNodes(graph)
      {
        StaleExactly(graph, e, e', n, more, m);
        NoNewCycle(graph, e, e', n, more, m);
        DescendantsCached(graph, e, m);
      }
    }
    if CacheExact(graph, e') {
      forall m | m in graph && m.cached.Cached? && (m == n || n in m.cached.deps)
        ensures more <= m.cached.deps
      {
        StaleExactly(graph, e, e', n, more, m);
      }
    }
  }

  /**
    __append_direct_libdeps, which does not look at the cache. Afterwards the cache is
    exact again, so that later queries are answered as Query promises, exactly when each
    cached node that is n, or depends on n, already depends on all of the new ones.
   */
  method AppendDirect(n: Node, prereqs: seq<Node?>, ghost graph: set<Node>)
    requires WellFormed(graph) && n in graph && Children(prereqs) <= graph
    requires CacheExact(graph, Edges(graph))
    modifies n`direct
    ensures n.direct == old(n.direct) + prereqs && WellFormed(graph)
    ensures Edges(graph) == old(Edges(graph))[n := old(Edges(graph))[n] + Children(prereqs)]
    ensures CacheExact(graph, Edges(graph)) <==> NothingNew(graph, n, Children(prereqs))
  {
    ghost var e := Edges(graph);
    ghost var e' := e[n := e[n] + Children(prereqs)];
    CacheAfterNewEdges(graph, e, e', n, Children(prereqs));
    n.direct := n.direct + prereqs;
    assert Children(n.direct) == Children(old(n.direct)) + Children(prereqs);
    assert Edges(graph) == e';
  }

  lemma NoEdges(e: map<Node, set<Node>>, a: Node)
    requires Closed(e) && a in e && e[a] == {}
    ensures Reach(e, a) == {} && !CycleBelow(e, a)
  {
    CycleBelowUnfold(e, a);
    ReachLeast(e, a, {});
  }

  lemma OneEdge(e: map<Node, set<Node>>, a: Node, b: Node)
    requires Closed(e) && a in e && b in e && e[a] == {b} && e[b] == {}
    ensures Reach(e, a) == {b}
  {
    ReachClosed(e, a);
    ReachLeast(e, a, {b});
  }

  /** A node that is asked for its dependencies, and given one afterwards, keeps the old answer. */
  method StaleExample(a: Node, b: Node)
    requires a != b && a.direct == b.direct == [] && a.cached == b.cached == Unset && !a.exploring && !b.exploring
    modifies a, b
    ensures a.direct == [b] && b.direct == [] && WellFormed({a, b})
    ensures a.cached == Cached({}) && Reach(Edges({a, b}), a) == {b}
  {
    ghost var graph := {a, b};
    ghost var e := Edges(graph);
    NoEdges(e, a);
    var r := Query(a, graph);
    assert r == Deps({}) && Children([b]) == {b};
    AppendDirect(a, [b], graph);
    OneEdge(Edges(graph), a, b);
  }
}
