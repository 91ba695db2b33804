/**
  Pruning the build cache by age: when the cache is over its quota, the least recently
  used files are deleted until the size falls below a fraction of the quota. Deleting a
  file can fail, and then its size still counts.
 */
module CachePrune {

  datatype Item = Item(path: string, time: real, size: nat)

  /** What happened to a file: renamed and removed, or one of the two failed. */
  datatype Fate = Removed | NotRenamed | NotRemoved

  /** The sum of w over a list of items. */
  ghost function Weigh(items: seq<Item>, w: Item -> nat): nat {
    if items == [] then 0 else Weigh(items[..|items| - 1], w) + w(items[|items| - 1])
  }

  ghost function Size(items: seq<Item>): nat {
    Weigh(items, (x: Item) => x.size)
  }

  /** The part of the size that can be removed, and the part that cannot. */
  ghost function Removable(items: seq<Item>, fate: Item -> Fate): nat {
    Weigh(items, (x: Item) => if fate(x) == Removed then x.size else 0)
  }

  ghost function Stuck(items: seq<Item>, fate: Item -> Fate): nat {
    Weigh(items, (x: Item) => if fate(x) == Removed then 0 else x.size)
  }

  lemma {:induction false} SizeSplits(items: seq<Item>, fate: Item -> Fate)
    ensures Size(items) == Removable(items, fate) + Stuck(items, fate)
  {
    if items != [] {
      SizeSplits(items[..|items| - 1], fate);
    }
  }

  lemma {:induction false} WeighJoin(a: seq<Item>, b: seq<Item>, w: Item -> nat)
    ensures Weigh(a + b, w) == Weigh(a, w) + Weigh(b, w)
    decreases |b|
  {
    if b == [] {
      assert a + b == a;
    } else {
      var l := |b| - 1;
      assert (a + b)[..|a + b| - 1] == a + b[..l];
      WeighJoin(a, b[..l], w);
    }
  }

  // ---------- sorting by time, newest first

  ghost predicate NewestFirst(items: seq<Item>) {
    forall i, j | 0 <= i < j < |items| :: items[i].time >= items[j].time
  }

  function Insert(sorted: seq<Item>, x: Item): (r: seq<Item>) {
    var l := |sorted| - 1;
    if l < 0 || sorted[l].time >= x.time then sorted + [x]
    else Insert(sorted[..l], x) + [sorted[l]]
  }

  /** The order that list.sort leaves: by time, newest first, equal times as they were. */
  function SortNewestFirst(items: seq<Item>): (r: seq<Item>) {
    if items == [] then []
    else Insert(SortNewestFirst(items[..|items| - 1]), items[|items| - 1])
  }

  /** Every item of the list is at least as new as the time given. */
  ghost predicate AllSince(items: seq<Item>, time: real) {
    forall i | 0 <= i < |items| :: items[i].time >= time
  }

  lemma {:induction false} InsertSorted(sorted: seq<Item>, x: Item)
    requires NewestFirst(sorted)
    ensures NewestFirst(Insert(sorted, x)) && |Insert(sorted, x)| == |sorted| + 1
    ensures forall time | AllSince(sorted, time) && x.time >= time :: AllSince(Insert(sorted, x), time)
  {
    var l := |sorted| - 1;
    if l >= 0 && sorted[l].time < x.time {
      InsertSorted(sorted[..l], x);
      assert AllSince(sorted[..l], sorted[l].time);
      assert AllSince(Insert(sorted[..l], x), sorted[l].time);
      forall time | AllSince(sorted, time) && x.time >= time
        ensures AllSince(Insert(sorted, x), time)
      {
        assert AllSince(sorted[..l], time);
      }
    }
  }

  lemma {:induction false} InsertWeigh(sorted: seq<Item>, x: Item, w: Item -> nat)
    ensures Weigh(Insert(sorted, x), w) == Weigh(sorted, w) + w(x)
  {
    var l := |sorted| - 1;
    if l < 0 || sorted[l].time >= x.time {
      assert (sorted + [x])[..|sorted|] == sorted;
    } else {
      InsertWeigh(sorted[..l], x, w);
      assert Insert(sorted, x)[..|Insert(sorted, x)| - 1] == Insert(sorted[..l], x);
    }
  }

  /** Sorting orders the items and, whatever is counted, loses and adds nothing. */
  lemma {:induction false} SortCorrect(items: seq<Item>, w: Item -> nat)
    ensures NewestFirst(SortNewestFirst(items)) && |SortNewestFirst(items)| == |items|
    ensures Weigh(SortNewestFirst(items), w) == Weigh(items, w)
  {
    if items != [] {
      var l := |items| - 1;
      SortCorrect(items[..l], w);
      InsertSorted(SortNewestFirst(items[..l]), items[l]);
      InsertWeigh(SortNewestFirst(items[..l]), items[l], w);
    }
  }

  // ---------- pruning

  const GIGABYTES: nat := 1024 * 1024 * 1024

  datatype Outcome = Outcome(ok: bool, total: int, examined: nat, wiped: bool)

  /** What is left of the total once the last k items of order were examined. */
  ghost function TotalAfter(order: seq<Item>, fate: Item -> Fate, k: nat): int
    requires k <= |order|
  {
    Size(order) - Removable(order[|order| - k..], fate)
  }

  lemma TotalAfterStep(order: seq<Item>, fate: Item -> Fate, k: nat)
    requires k < |order|
    ensures var x := order[|order| - k - 1];
            TotalAfter(order, fate, k + 1) == TotalAfter(order, fate, k) - if fate(x) == Removed then x.size else 0
  {
    var at := |order| - k - 1;
    assert order[at..] == [order[at]] + order[at + 1..];
    WeighJoin([order[at]], order[at + 1..], (x: Item) => if fate(x) == Removed then x.size else 0);
    assert [order[at]][..0] == [];
  }

  lemma {:induction false} TotalAfterShrinks(order: seq<Item>, fate: Item -> Fate, j: nat, k: nat)
    requires j <= k <= |order|
    ensures TotalAfter(order, fate, k) <= TotalAfter(order, fate, j)
    decreases k - j
  {
    if j < k {
      TotalAfterShrinks(order, fate, j, k - 1);
      TotalAfterStep(order, fate, k - 1);
    }
  }

  lemma TotalAtEnds(order: seq<Item>, fate: Item -> Fate)
    ensures TotalAfter(order, fate, 0) == Size(order)
    ensures TotalAfter(order, fate, |order|) == Stuck(order, fate)
  {
    SizeSplits(order, fate);
    assert order[|order|..] == [] && order[0..] == order;
  }

  /** The size in bytes to prune down to. */
  function Target(cacheSizeGb: nat, cleanRatio: real): real {
    (cacheSizeGb * GIGABYTES) as real * cleanRatio
  }

  ghost predicate TooLarge(order: seq<Item>, fate: Item -> Fate, target: real, k: nat)
    requires k <= |order|
  {
    TotalAfter(order, fate, k) as real >= target
  }

  /**
    A run of the pruning loop that examined so many files, the last ones of order: each
    was examined only while the total was still too large, and success is a total that is
    small enough.
   */
  ghost predicate PrunesFrom(order: seq<Item>, target: real, fate: Item -> Fate, ok: bool, examined: nat) {
    && examined <= |order|
    && (forall k: nat | k < examined :: TooLarge(order, fate, target, k))
    && (if ok then !TooLarge(order, fate, target, examined)
        else examined == |order| && TooLarge(order, fate, target, examined))
  }

  ghost predicate Prunes(contents: seq<Item>, target: real, fate: Item -> Fate, ok: bool, examined: nat) {
    |SortNewestFirst(contents)| == |contents| && PrunesFrom(SortNewestFirst(contents), target, fate, ok, examined)
  }

  lemma SortKeepsSize(contents: seq<Item>)
    ensures NewestFirst(SortNewestFirst(contents)) && |SortNewestFirst(contents)| == |contents|
    ensures Size(SortNewestFirst(contents)) == Size(contents)
  {
    SortCorrect(contents, (x: Item) => x.size);
  }

  /** The loop of prune_cache over the sorted contents. */
  method PruneLoop(order: seq<Item>, size: nat, target: real, fate: Item -> Fate) returns (r: Outcome)
    requires size == Size(order)
    ensures r.ok == !r.wiped && PrunesFrom(order, target, fate, r.ok, r.examined)
    ensures r.total == TotalAfter(order, fate, r.examined)
  {
    TotalAtEnds(order, fate);
    var contents, total: int, k := order, size, 0;
    while total as real >= target
      invariant k <= |order| && contents == order[..|order| - k]
      invariant total == TotalAfter(order, fate, k)
      invariant forall j: nat | j < k :: TooLarge(order, fate, target, j)
      decreases |order| - k
    {
      assert TooLarge(order, fate, target, k);
      if |contents| == 0 {
        return Outcome(false, total, k, true);
      }
      TotalAfterStep(order, fate, k);
      var item := contents[|contents| - 1];
      contents := contents[..|contents| - 1];
      k := k + 1;
      if fate(item) == Removed {
        total := total - item.size;
      }
    }
    return Outcome(true, total, k, false);
  }

  /** prune_cache, with the contents of the cache and the fate of each file given. */
  method PruneCache(contents: seq<Item>, cacheSizeGb: nat, cleanRatio: real, fate: Item -> Fate)
    returns (r: Outcome)
    ensures r.ok == !r.wiped
    ensures GIGABYTES == 1_073_741_824
    ensures Target(cacheSizeGb, cleanRatio) == (cacheSizeGb * GIGABYTES) as real * cleanRatio
    ensures if Size(contents) < cacheSizeGb * GIGABYTES then r == Outcome(true, Size(contents), 0, false)
            else Prunes(contents, Target(cacheSizeGb, cleanRatio), fate, r.ok, r.examined) &&
                 r.total == TotalAfter(SortNewestFirst(contents), fate, r.examined)
  {
    var total := Total(contents);
    if total >= cacheSizeGb * GIGABYTES {
      SortKeepsSize(contents);
      r := PruneLoop(SortNewestFirst(contents), total, Target(cacheSizeGb, cleanRatio), fate);
    } else {
      r := Outcome(true, total, 0, false);
    }
  }

  /** collect_cache_contents' running total. */
  method Total(contents: seq<Item>) returns (total: nat)
    ensures total == Size(contents)
  {
    total := 0;
    for i := 0 to |contents|
      invariant total == Size(contents[..i])
    {
      assert contents[..i + 1][..i] == contents[..i];
      total := total + contents[i].size;
    }
    assert contents[..|contents|] == contents;
  }

  /** The examined files are no newer than those left alone. */
  lemma OldestExamined(contents: seq<Item>, examined: nat, i: nat, j: nat)
    requires examined <= |contents|
    ensures var order := SortNewestFirst(contents);
            |order| == |contents| && (i < |order| - examined <= j < |order| ==> order[j].time <= order[i].time)
  {
    SortCorrect(contents, (x: Item) => 0);
  }

  /**
    Once pruning starts, it fails and removes the whole cache exactly when the files that
    cannot be deleted alone are too large for the target; how many files it examines is
    determined.
   */
  lemma FailsExactly(contents: seq<Item>, target: real, fate: Item -> Fate, ok: bool, examined: nat)
    requires Prunes(contents, target, fate, ok, examined)
    ensures !ok <==> Stuck(contents, fate) as real >= target
    ensures forall ok', examined' | Prunes(contents, target, fate, ok', examined') :: ok' == ok && examined' == examined
  {
    var order := SortNewestFirst(contents);
    SortCorrect(contents, (x: Item) => if fate(x) == Removed then 0 else x.size);
    TotalAtEnds(order, fate);
    TotalAfterShrinks(order, fate, examined, |order|);
    forall ok', examined' | Prunes(contents, target, fate, ok', examined')
      ensures ok' == ok && examined' == examined
    {
      TotalAfterShrinks(order, fate, examined', |order|);
    }
  }

  /** If every file can be deleted, the whole cache is removed only for a target that is not positive. */
  lemma AllRemovable(contents: seq<Item>, target: real, fate: Item -> Fate, ok: bool, examined: nat)
    requires Prunes(contents, target, fate, ok, examined) && forall x | x in contents :: fate(x) == Removed
    ensures ok <==> target > 0.0
  {
    FailsExactly(contents, target, fate, ok, examined);
    NothingStuck(contents, fate);
  }

  lemma {:induction false} NothingStuck(items: seq<Item>, fate: Item -> Fate)
    requires forall x | x in items :: fate(x) == Removed
    ensures Stuck(items, fate) == 0
  {
    if items != [] {
      NothingStuck(items[..|items| - 1], fate);
    }
  }

  lemma SizeOne(file: Item)
    ensures Size([file]) == file.size && SortNewestFirst([file]) == [file]
  {
    var items, w := [file], (x: Item) => x.size;
    assert items[..0] == [];
    assert Weigh(items, w) == Weigh(items[..0], w) + w(file);
    assert SortNewestFirst(items) == Insert(SortNewestFirst(items[..0]), file);
  }

  lemma OneStuckFile(file: Item, target: real, fate: Item -> Fate)
    requires file.size as real >= target && fate(file) != Removed
    ensures Prunes([file], target, fate, false, 1) && TotalAfter([file], fate, 1) == file.size
  {
    SizeOne(file);
    TotalAtEnds([file], fate);
    TotalAfterStep([file], fate, 0);
  }

  /** A cache of one file that has reached the quota and cannot be deleted is removed as a whole. */
  method WipeExample(file: Item, cacheSizeGb: nat, cleanRatio: real, fate: Item -> Fate) returns (r: Outcome)
    requires file.size >= cacheSizeGb * GIGABYTES && cleanRatio <= 1.0 && fate(file) != Removed
    ensures r == Outcome(false, file.size, 1, true)
  {
    r := PruneCache([file], cacheSizeGb, cleanRatio, fate);
    ghost var target := Target(cacheSizeGb, cleanRatio);
    TargetWithinQuota(cacheSizeGb, cleanRatio);
    SizeOne(file);
    OneStuckFile(file, target, fate);
    FailsExactly([file], target, fate, false, 1);
  }

  lemma TargetWithinQuota(cacheSizeGb: nat, cleanRatio: real)
    requires cleanRatio <= 1.0
    ensures Target(cacheSizeGb, cleanRatio) <= (cacheSizeGb * GIGABYTES) as real
  {
    var quota := (cacheSizeGb * GIGABYTES) as real;
    assert quota * (1.0 - cleanRatio) >= 0.0;
  }
}
