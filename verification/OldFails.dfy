/**
  Rerunning the tests recorded in the fail file: entries that pass are dropped from the
  list in place, by popping indices that shift as the list shrinks, however the rerun
  loop is left.
 */
module OldFails {
  import opened Seqs

  // ---------- running tests

  /** How runTest ended: it returned, or it raised one of two kinds of test failure or something else. */
  datatype TestEnd = Returns | ExitFailure | ServerFailure | OtherError

  /** The checks after a test: the databases agree, or they differ, which is only recorded, or a check raised. */
  datatype Checks = Agree | Differ | Broken

  datatype Trial = Trial(skipped: bool, end: TestEnd, checks: Checks)

  /** Around the tests: whether starting servers, the last comparison and stopping servers get through. */
  datatype Servers = Servers(start: bool, compare: bool, stop: bool)

  datatype Exit = Value(code: nat) | Raised

  predicate Wins(t: Trial) {
    !t.skipped && t.end.Returns?
  }

  predicate Loses(t: Trial) {
    !t.skipped && !t.end.Returns?
  }

  /** The loop goes on to the next test. */
  predicate GoesOn(t: Trial, continues: bool) {
    if Loses(t) then t.end.ExitFailure? && continues else !t.checks.Broken?
  }

  /** The loop is left by an exception. */
  predicate Throws(t: Trial) {
    if Loses(t) then t.end.OtherError? else t.checks.Broken?
  }

  /** How many tests are begun. */
  ghost function Begun(trials: seq<Trial>, continues: bool): (n: nat)
    ensures n <= |trials|
  {
    if trials == [] then 0
    else if GoesOn(trials[0], continues) then 1 + Begun(trials[1..], continues)
    else 1
  }

  /** The first n tests that won, and those that lost, in order. */
  ghost function Winners<T>(tests: seq<T>, trials: seq<Trial>, n: nat): seq<T>
    requires n <= |tests| == |trials|
  {
    if n == 0 then [] else Winners(tests, trials, n - 1) + if Wins(trials[n - 1]) then [tests[n - 1]] else []
  }

  ghost function Losers<T>(tests: seq<T>, trials: seq<Trial>, n: nat): seq<T>
    requires n <= |tests| == |trials|
  {
    if n == 0 then [] else Losers(tests, trials, n - 1) + if Loses(trials[n - 1]) then [tests[n - 1]] else []
  }

  /** Every test begun that is not skipped is in one of the lists, by how runTest ended, and none else is. */
  lemma {:induction false} ListedExactly<T>(tests: seq<T>, trials: seq<Trial>, n: nat, x: T)
    requires n <= |tests| == |trials|
    ensures x in Winners(tests, trials, n) <==>
            exists i :: 0 <= i < n && tests[i] == x && !trials[i].skipped && trials[i].end == Returns
    ensures x in Losers(tests, trials, n) <==>
            exists i :: 0 <= i < n && tests[i] == x && !trials[i].skipped && trials[i].end != Returns
    ensures |Winners(tests, trials, n)| + |Losers(tests, trials, n)| == NotSkipped(trials, n)
  {
    if n > 0 {
      ListedExactly(tests, trials, n - 1, x);
    }
  }

  ghost function NotSkipped(trials: seq<Trial>, n: nat): nat
    requires n <= |trials|
  {
    if n == 0 then 0 else NotSkipped(trials, n - 1) + if trials[n - 1].skipped then 0 else 1
  }

  lemma {:induction false} BegunAt(trials: seq<Trial>, continues: bool, n: nat)
    requires n < |trials| && forall i | 0 <= i < n :: GoesOn(trials[i], continues)
    ensures !GoesOn(trials[n], continues) || n + 1 == |trials| ==> Begun(trials, continues) == n + 1
  {
    if n > 0 {
      BegunAt(trials[1..], continues, n - 1);
    } else if |trials| == 1 {
      assert trials[1..] == [];
    }
  }

  /** The global lists: tests that passed, and tests begun that have not passed. */
  class Smoke<T(!new)> {
    var winners: seq<T>
    var fails: seq<T>

    /**
      run_tests. Each test begun is added to one of the two lists, by how runTest ended and
      whatever the checks after it found; the checks decide how the loop is left.
     */
    method RunTests(tests: seq<T>, trials: seq<Trial>, servers: Servers, continues: bool) returns (r: Exit)
      requires |trials| == |tests|
      modifies this
      ensures var n := if servers.start then Begun(trials, continues) else 0;
              && winners == old(winners) + Winners(tests, trials, n)
              && fails == old(fails) + Losers(tests, trials, n)
              && (r.Raised? <==> !servers.start || !servers.stop || (n > 0 && Throws(trials[n - 1])) ||
                                 ((n == 0 || GoesOn(trials[n - 1], continues)) && !servers.compare))
              && (r.Value? ==> r.code == if n == 0 || !Loses(trials[n - 1]) then 0
                                         else if trials[n - 1].end.ServerFailure? then 2
                                         else if continues then 0 else 1)
    {
      if !servers.start {
        return Raised;
      }
      var i := 0;
      while i < |tests|
        invariant 0 <= i <= |tests| && forall k | 0 <= k < i :: GoesOn(trials[k], continues)
        invariant winners == old(winners) + Winners(tests, trials, i)
        invariant fails == old(fails) + Losers(tests, trials, i)
        invariant i == |tests| ==> Begun(trials, continues) == i
      {
        BegunAt(trials, continues, i);
        var t := trials[i];
        if !t.skipped {
          fails := fails + [tests[i]];
          if t.end.Returns? {
            fails := fails[..|fails| - 1];
            winners := winners + [tests[i]];
          } else if t.end.OtherError? {
            return Raised;
          } else if t.end.ServerFailure? {
            return if servers.stop then Value(2) else Raised;
          } else if !continues {
            return if servers.stop then Value(1) else Raised;
          }
        }
        if !Loses(t) && t.checks.Broken? {
          return Raised;
        }
        i := i + 1;
      }
      r := if servers.compare && servers.stop then Value(0) else Raised;
    }

    /**
      run_old_fails from the loaded list to the list that is saved: exactly the original
      entries, in order, without those recorded as passed. An entry is recorded when its
      file is gone, or when run_tests came back and the list of winners had grown.
     */
    method RunOldFails(entries: seq<T>, outcomes: seq<Rerun>) returns (saved: seq<T>)
      requires |outcomes| == |entries|
      modifies this
      ensures saved == Keep(entries, |entries|, PassedSet(outcomes))
    {
      var passed: seq<nat> := [];
      var i := 0;
      while i < |entries|
        invariant 0 <= i <= |entries| && forall j | 0 <= j < i :: !Stops(outcomes[j])
        invariant passed == PassedBelow(outcomes, i)
      {
        match outcomes[i] {
          case MissingFile =>
            passed := passed + [i];
            winners := winners + [entries[i]];
          case NotRunnable =>
          case Run(trial, servers, continues) =>
            var before := |winners|;
            OneTest(entries[i], trial, continues);
            var r := RunTests([entries[i]], [trial], servers, continues);
            if r.Raised? {
              break;
            }
            if |winners| != before {
              passed := passed + [i];
            }
        }
        i := i + 1;
      }
      PassedBelowExact(outcomes, i);
      PassedBeforeStop(outcomes, i);
      assert forall k | 0 <= k < |passed| :: passed[k] in passed;
      saved := PopAll(entries, passed);
    }
  }

  lemma OneTest<T>(test: T, trial: Trial, continues: bool)
    ensures Begun([trial], continues) == 1
    ensures Winners([test], [trial], 1) == if Wins(trial) then [test] else []
    ensures Losers([test], [trial], 1) == if Loses(trial) then [test] else []
  {
    BegunAt([trial], continues, 0);
  }

  // ---------- the entries of the fail file

  /** What became of one entry: no such file, not a test to run now, or a run of it alone. */
  datatype Rerun =
    | MissingFile
    | NotRunnable
    | Run(trial: Trial, servers: Servers, continues: bool)

  /**
    The entry is recorded as passed: its file is gone, or its test passed and nothing was
    raised around it. That the databases differ afterwards makes no difference.
   */
  predicate Passes(o: Rerun) {
    || o.MissingFile?
    || (o.Run? && Wins(o.trial) && !o.trial.checks.Broken? && o.servers == Servers(true, true, true))
  }

  /** The rerun loop is left by an exception. */
  predicate Stops(o: Rerun) {
    o.Run? && (!o.servers.start || !o.servers.stop || Throws(o.trial) ||
               (GoesOn(o.trial, o.continues) && !o.servers.compare))
  }

  /** The entries are gone through up to and including the first that stops the loop. */
  ghost predicate Reached(outcomes: seq<Rerun>, i: nat) {
    i < |outcomes| && forall j | 0 <= j < i :: !Stops(outcomes[j])
  }

  // ---------- dropping entries

  /** The entries before position n whose index is not in drop, in order. */
  ghost function Keep<T>(entries: seq<T>, n: nat, drop: set<nat>): seq<T>
    requires n <= |entries|
  {
    if n == 0 then []
    else Keep(entries, n - 1, drop) + if n - 1 in drop then [] else [entries[n - 1]]
  }

  ghost predicate Ascending(idx: seq<nat>) {
    forall j, k | 0 <= j < k < |idx| :: idx[j] < idx[k]
  }

  lemma {:induction false} KeepStretch<T>(entries: seq<T>, m: nat, n: nat, drop: set<nat>)
    requires m <= n <= |entries| && forall i | m <= i < n :: i !in drop
    ensures Keep(entries, n, drop) == Keep(entries, m, drop) + entries[m..n]
    decreases n - m
  {
    if m < n {
      KeepStretch(entries, m, n - 1, drop);
      assert entries[m..n] == entries[m..n - 1] + [entries[n - 1]];
    } else {
      assert entries[m..n] == [];
    }
  }

  /** The list after the first k pops: what is kept so far, and the rest untouched. */
  ghost predicate PoppedFrom<T>(entries: seq<T>, idx: seq<nat>, k: nat, list: seq<T>)
    requires k <= |idx|
  {
    var pos := if k == 0 then 0 else idx[k - 1] + 1;
    && pos <= |entries|
    && list == Keep(entries, pos, Elements(idx)) + entries[pos..]
    && |Keep(entries, pos, Elements(idx))| == pos - k
  }

  /** Between two neighbouring indices, before the first and after the last, nothing is dropped. */
  lemma BetweenIndices(idx: seq<nat>, k: nat, i: nat)
    requires Ascending(idx) && k <= |idx|
    requires (k > 0 ==> idx[k - 1] < i) && (k < |idx| ==> i < idx[k])
    ensures i !in Elements(idx)
  {
    forall j | 0 <= j < |idx|
      ensures idx[j] != i
    {
      if j < k - 1 {
        assert idx[j] < idx[k - 1];
      } else if k < j {
        assert idx[k] < idx[j];
      }
    }
  }

  /** list.pop(k), for the list that is left. */
  function PopAt<T>(list: seq<T>, k: nat): seq<T>
    requires k < |list|
  {
    list[..k] + list[k + 1..]
  }

  lemma PopStart<T>(entries: seq<T>, idx: seq<nat>)
    ensures PoppedFrom(entries, idx, 0, entries)
  {
    assert entries == [] + entries[0..];
  }

  lemma PopEnd<T>(entries: seq<T>, idx: seq<nat>, list: seq<T>)
    requires Ascending(idx) && PoppedFrom(entries, idx, |idx|, list)
    ensures list == Keep(entries, |entries|, Elements(idx))
  {
    var pos := if |idx| == 0 then 0 else idx[|idx| - 1] + 1;
    forall i | pos <= i < |entries|
      ensures i !in Elements(idx)
    {
      BetweenIndices(idx, |idx|, i);
    }
    KeepStretch(entries, pos, |entries|, Elements(idx));
    assert entries[pos..] == entries[pos..|entries|];
  }

  lemma {:induction false} PopStep<T>(entries: seq<T>, idx: seq<nat>, k: nat, list: seq<T>, list': seq<T>)
    requires Ascending(idx) && k < |idx| && (forall j | 0 <= j < |idx| :: idx[j] < |entries|)
    requires PoppedFrom(entries, idx, k, list)
    requires k <= idx[k] < |list| + k ==> list' == PopAt(list, idx[k] - k)
    ensures k <= idx[k] < |list| + k
    ensures PoppedFrom(entries, idx, k + 1, list')
  {
    var pos, p, drop := if k == 0 then 0 else idx[k - 1] + 1, idx[k], Elements(idx);
    forall i | pos <= i < p
      ensures i !in drop
    {
      BetweenIndices(idx, k, i);
    }
    KeepStretch(entries, pos, p, drop);
    var kept := Keep(entries, p, drop);
    assert list == kept + entries[p..] && |kept| == p - k;
    assert list[..p - k] == kept && list[p - k + 1..] == entries[p + 1..];
    assert p in drop && Keep(entries, p + 1, drop) == kept;
  }

  /** The list after the first k pops. */
  ghost function Pops<T>(entries: seq<T>, idx: seq<nat>, k: nat): (list: seq<T>)
    requires k <= |idx| && forall j | 0 <= j < |idx| :: j <= idx[j] < |entries|
    ensures |list| == |entries| - k
  {
    if k == 0 then entries else PopAt(Pops(entries, idx, k - 1), idx[k - 1] - (k - 1))
  }

  lemma {:induction false} PopsAre<T>(entries: seq<T>, idx: seq<nat>, k: nat)
    requires k <= |idx| && Ascending(idx) && forall j | 0 <= j < |idx| :: j <= idx[j] < |entries|
    ensures PoppedFrom(entries, idx, k, Pops(entries, idx, k))
  {
    if k == 0 {
      PopStart(entries, idx);
    } else {
      PopsAre(entries, idx, k - 1);
      PopStep(entries, idx, k - 1, Pops(entries, idx, k - 1), Pops(entries, idx, k));
    }
  }

  lemma {:induction false} IndexAtLeast(idx: seq<nat>, j: nat)
    requires Ascending(idx) && j < |idx|
    ensures j <= idx[j]
  {
    if j > 0 {
      IndexAtLeast(idx, j - 1);
    }
  }

  /** The finally clause: each recorded index is popped at its place less the pops before it. */
  method PopAll<T>(entries: seq<T>, idx: seq<nat>) returns (list: seq<T>)
    requires Ascending(idx) && forall j | 0 <= j < |idx| :: idx[j] < |entries|
    ensures list == Keep(entries, |entries|, Elements(idx))
  {
    forall j | 0 <= j < |idx|
      ensures j <= idx[j]
    {
      IndexAtLeast(idx, j);
    }
    list := entries;
    for offset := 0 to |idx|
      invariant list == Pops(entries, idx, offset)
    {
      list := PopAt(list, idx[offset] - offset);
    }
    PopsAre(entries, idx, |idx|);
    PopEnd(entries, idx, list);
  }

  /** The indices below n of entries that pass, in order. */
  ghost function PassedBelow(outcomes: seq<Rerun>, n: nat): seq<nat>
    requires n <= |outcomes|
  {
    if n == 0 then [] else PassedBelow(outcomes, n - 1) + if Passes(outcomes[n - 1]) then [n - 1] else []
  }

  lemma {:induction false} PassedBelowExact(outcomes: seq<Rerun>, n: nat)
    requires n <= |outcomes|
    ensures Ascending(PassedBelow(outcomes, n))
    ensures forall i: nat :: i in PassedBelow(outcomes, n) <==> i < n && Passes(outcomes[i])
  {
    if n > 0 {
      PassedBelowExact(outcomes, n - 1);
      var front := PassedBelow(outcomes, n - 1);
      assert forall k | 0 <= k < |front| :: front[k] in front;
    }
  }

  /** The positions recorded as passed, however the loop is left. */
  ghost function PassedSet(outcomes: seq<Rerun>): set<nat> {
    set i: nat | i < |outcomes| && Reached(outcomes, i) && Passes(outcomes[i])
  }

  lemma PassedBeforeStop(outcomes: seq<Rerun>, n: nat)
    requires n <= |outcomes| && (forall j | 0 <= j < n :: !Stops(outcomes[j]))
    requires n < |outcomes| ==> Stops(outcomes[n])
    ensures Elements(PassedBelow(outcomes, n)) == PassedSet(outcomes)
  {
    PassedBelowExact(outcomes, n);
  }

  /** Keep does keep: an entry is in the list exactly when an index that is not dropped holds it. */
  lemma {:induction false} KeepMembers<T>(entries: seq<T>, n: nat, drop: set<nat>, x: T)
    requires n <= |entries|
    ensures x in Keep(entries, n, drop) <==> exists i :: 0 <= i < n && i !in drop && entries[i] == x
  {
    if n > 0 {
      KeepMembers(entries, n - 1, drop, x);
    }
  }

  /** An entry is dropped although the databases of its test differ; one whose check raised stays, though it won. */
  lemma DroppedDespiteDifference(end: Checks, continues: bool)
    ensures var o := Run(Trial(false, Returns, end), Servers(true, true, true), continues);
            (0 in PassedSet([o]) <==> !end.Broken?) && Winners(["t"], [o.trial], 1) == ["t"]
  {
    OneTest("t", Trial(false, Returns, end), continues);
  }
}
