/**
  The worker pool that runs a function over a list of items: workers share a queue, a
  stop event and a result cell. Each atomic action of a worker, and of the thread that
  waits for the workers, is one step; a run is any interleaving of steps. An item is
  named by its position in the input list, so that equal items stay apart.
 */
module WorkerPool {
  import opened Seqs

  /** How one call of the work function ended. */
  datatype Verdict = Truthy | Falsy | Raised

  /** Where a worker stands in its loop. */
  datatype Pc =
    | Check                 // about to test the event
    | Get                   // about to take an item without waiting
    | Running(item: nat)    // inside the work function
    | Returned(ok: bool)    // about to test what the function returned
    | WriteResult           // about to store False in the result cell
    | SetEvent              // about to set the event
    | Finished              // left the loop
    | Crashed               // ended by an exception of the work function
  {
    predicate Over() {
      Finished? || Crashed?
    }
  }

  datatype Main = Waiting | Joining(joined: nat) | Done(value: bool)

  /** One call of the work function that has ended. */
  datatype Call = Call(item: nat, verdict: Verdict)

  datatype Pool = Pool(
    queue: seq<nat>,
    event: bool,
    result: bool,
    unfinished: nat,        // the queue's count of items not yet marked done
    workers: seq<Pc>,
    main: Main,
    calls: seq<Call>,       // history: calls that ended, in order
    late: nat)              // history: items taken after the event was set
  {
    function Move(i: nat, pc: Pc): Pool
      requires i < |workers|
    {
      this.(workers := workers[i := pc])
    }
  }

  ghost function Init(items: nat, workers: nat): (p: Pool) {
    Pool(seq(items, k => k), false, true, items, seq(workers, i => Check), Waiting, [], 0)
  }

  function AfterCall(v: Verdict): Pc {
    match v
    case Truthy => Returned(true)
    case Falsy => Returned(false)
    case Raised => Crashed
  }

  /** The state after worker i, inside a call, sees it end with v. */
  function EndCall(p: Pool, i: nat, v: Verdict): Pool
    requires i < |p.workers| && p.workers[i].Running? && p.unfinished > 0
  {
    p.Move(i, AfterCall(v)).(unfinished := p.unfinished - 1,
                             calls := p.calls + [Call(p.workers[i].item, v)])
  }

  /** The state after worker i takes the first queued item. */
  function TakeItem(p: Pool, i: nat): Pool
    requires i < |p.workers| && p.queue != []
  {
    p.Move(i, Running(p.queue[0])).(queue := p.queue[1..],
                                    late := if p.event then p.late + 1 else p.late)
  }

  /** Worker i takes one action, leading from p to q. */
  ghost predicate WorkerStep(p: Pool, q: Pool, i: nat) {
    && i < |p.workers|
    && match p.workers[i]
       case Check => q == p.Move(i, if p.event then Finished else Get)
       case Get => q == if p.queue == [] then p.Move(i, SetEvent) else TakeItem(p, i)
       case Running(_) => p.unfinished > 0 && exists v :: q == EndCall(p, i, v)
       case Returned(ok) => q == p.Move(i, if ok then Check else WriteResult)
       case WriteResult => q == p.Move(i, SetEvent).(result := false)
       case SetEvent => q == p.Move(i, Finished).(event := true)
       case Finished => false
       case Crashed => false
  }

  /** The thread that called the pool: wait for the event, join each worker, return. */
  ghost predicate MainStep(p: Pool, q: Pool) {
    match p.main
    case Waiting => p.event && q == p.(main := Joining(0))
    case Joining(k) =>
      if k < |p.workers| then
        p.workers[k].Over() && q == p.(main := Joining(k + 1))
      else
        q == p.(main := Done(p.result))
    case Done(_) => false
  }

  ghost predicate Step(p: Pool, q: Pool) {
    MainStep(p, q) || exists i: nat :: WorkerStep(p, q, i)
  }

  /** A run of the pool: it starts in Init and each state steps to the next. */
  ghost predicate Run(items: nat, workers: nat, run: seq<Pool>) {
    && run != []
    && run[0] == Init(items, workers)
    && forall k | 0 < k < |run| :: Step(run[k - 1], run[k])
  }

  // ---------- counting over the workers

  function Bit(b: bool): nat {
    if b then 1 else 0
  }

  ghost function AtGet(ws: seq<Pc>): nat {
    if ws == [] then 0 else AtGet(ws[..|ws| - 1]) + Bit(ws[|ws| - 1].Get?)
  }

  ghost function AtRunning(ws: seq<Pc>): nat {
    if ws == [] then 0 else AtRunning(ws[..|ws| - 1]) + Bit(ws[|ws| - 1].Running?)
  }

  ghost function AtCrashed(ws: seq<Pc>): nat {
    if ws == [] then 0 else AtCrashed(ws[..|ws| - 1]) + Bit(ws[|ws| - 1].Crashed?)
  }

  /** How many calls raised. */
  ghost function Raises(calls: seq<Call>): nat {
    if calls == [] then 0 else Raises(calls[..|calls| - 1]) + Bit(calls[|calls| - 1].verdict == Raised)
  }

  function Rank(pc: Pc): nat {
    match pc
    case Check => 3
    case Get => 2
    case Running(_) => 5
    case Returned(_) => 4
    case WriteResult => 2
    case SetEvent => 1
    case Finished => 0
    case Crashed => 0
  }

  ghost function Ranks(ws: seq<Pc>): nat {
    if ws == [] then 0 else Ranks(ws[..|ws| - 1]) + Rank(ws[|ws| - 1])
  }

  lemma {:induction false} CountsAfterMove(ws: seq<Pc>, i: nat, pc: Pc)
    requires i < |ws|
    ensures Ranks(ws[i := pc]) + Rank(ws[i]) == Ranks(ws) + Rank(pc)
    ensures AtGet(ws[i := pc]) + Bit(ws[i].Get?) == AtGet(ws) + Bit(pc.Get?)
    ensures AtRunning(ws[i := pc]) + Bit(ws[i].Running?) == AtRunning(ws) + Bit(pc.Running?)
    ensures AtCrashed(ws[i := pc]) + Bit(ws[i].Crashed?) == AtCrashed(ws) + Bit(pc.Crashed?)
  {
    var l := |ws| - 1;
    if i == l {
      assert ws[i := pc][..l] == ws[..l];
    } else {
      assert ws[i := pc][..l] == ws[..l][i := pc];
      CountsAfterMove(ws[..l], i, pc);
    }
  }

  lemma {:induction false} AtGetBound(ws: seq<Pc>, i: nat)
    requires i < |ws| && !ws[i].Get?
    ensures AtGet(ws) < |ws|
  {
    var l := |ws| - 1;
    AtGetAtMost(ws[..l]);
    if i < l {
      AtGetBound(ws[..l], i);
    }
  }

  lemma {:induction false} AtGetAtMost(ws: seq<Pc>)
    ensures AtGet(ws) <= |ws|
  {
    if ws != [] {
      AtGetAtMost(ws[..|ws| - 1]);
    }
  }

  lemma {:induction false} CountsAtStart(ws: seq<Pc>)
    requires forall i | 0 <= i < |ws| :: ws[i].Check?
    ensures AtRunning(ws) == 0 && AtCrashed(ws) == 0 && Ranks(ws) == 3 * |ws|
  {
    if ws != [] {
      CountsAtStart(ws[..|ws| - 1]);
    }
  }

  lemma {:induction false} AllCrashedExactly(ws: seq<Pc>)
    ensures AtCrashed(ws) <= |ws|
    ensures AtCrashed(ws) == |ws| <==> forall i | 0 <= i < |ws| :: ws[i].Crashed?
  {
    if ws != [] {
      var l := |ws| - 1;
      AllCrashedExactly(ws[..l]);
      assert forall i | 0 <= i < l :: ws[..l][i] == ws[i];
    }
  }

  // ---------- what every reachable state satisfies

  ghost predicate HeldBy(p: Pool, k: nat, i: nat) {
    i < |p.workers| && p.workers[i] == Running(k)
  }

  ghost predicate CalledAt(p: Pool, k: nat, r: nat) {
    r < |p.calls| && p.calls[r].item == k
  }

  /** The queue is what is left of the input, in order. */
  ghost predicate QueueInOrder(items: nat, p: Pool) {
    && |p.queue| <= items
    && forall j | 0 <= j < |p.queue| :: p.queue[j] == items - |p.queue| + j
  }

  ghost predicate Taken(p: Pool, k: nat) {
    (exists i: nat :: HeldBy(p, k, i)) || (exists r: nat :: CalledAt(p, k, r))
  }

  /** Each item taken is with exactly one worker or in exactly one ended call. */
  ghost predicate TakenOnce(items: nat, p: Pool) {
    && (forall k: nat :: Taken(p, k) <==> k < items - |p.queue|)
    && (forall k: nat, i: nat, j: nat | HeldBy(p, k, i) && HeldBy(p, k, j) :: i == j)
    && (forall k: nat, r: nat, s: nat | CalledAt(p, k, r) && CalledAt(p, k, s) :: r == s)
    && (forall k: nat, i: nat, r: nat | HeldBy(p, k, i) :: !CalledAt(p, k, r))
  }

  ghost predicate SomeFalsy(p: Pool) {
    exists r :: 0 <= r < |p.calls| && p.calls[r].verdict == Falsy
  }

  /** Worker i saw a false value and has not stored it yet. */
  ghost predicate Pending(p: Pool, i: nat) {
    i < |p.workers| && (p.workers[i] == Returned(false) || p.workers[i] == WriteResult)
  }

  /** The result cell is False only after a false value, which is stored before the stop. */
  ghost predicate ResultTracks(p: Pool) {
    && (!p.result ==> SomeFalsy(p))
    && (forall i: nat | Pending(p, i) :: SomeFalsy(p))
    && (SomeFalsy(p) ==> !p.result || exists i: nat :: Pending(p, i))
  }

  /** Why a worker stops: the queue ran dry or the result is already False. */
  ghost predicate StopJustified(p: Pool) {
    && (p.event ==> p.queue == [] || !p.result)
    && (!p.result ==> p.event || exists i :: 0 <= i < |p.workers| && p.workers[i].SetEvent?)
    && (forall i | 0 <= i < |p.workers| && p.workers[i].SetEvent? :: p.queue == [] || !p.result)
    && (forall i | 0 <= i < |p.workers| && p.workers[i].Finished? :: p.event)
    && (p.event ==> exists i :: 0 <= i < |p.workers| && p.workers[i].Finished?)
  }

  ghost predicate LateBounded(p: Pool) {
    if p.event then p.late + AtGet(p.workers) < |p.workers| else p.late == 0
  }

  ghost predicate MainTracks(p: Pool) {
    match p.main
    case Waiting => true
    case Joining(k) => p.event && k <= |p.workers| && forall i | 0 <= i < k :: p.workers[i].Over()
    case Done(v) => p.event && v == p.result && forall i | 0 <= i < |p.workers| :: p.workers[i].Over()
  }

  ghost predicate Inv(items: nat, workers: nat, p: Pool) {
    && |p.workers| == workers
    && QueueInOrder(items, p)
    && TakenOnce(items, p)
    && p.unfinished == |p.queue| + AtRunning(p.workers)
    && AtCrashed(p.workers) == Raises(p.calls)
    && ResultTracks(p)
    && StopJustified(p)
    && LateBounded(p)
    && MainTracks(p)
  }

  lemma EndCallKeepsTakenOnce(items: nat, p: Pool, i: nat, v: Verdict)
    requires TakenOnce(items, p) && i < |p.workers| && p.workers[i].Running? && p.unfinished > 0
    ensures TakenOnce(items, EndCall(p, i, v))
  {
    var q, item := EndCall(p, i, v), p.workers[i].item;
    assert HeldBy(p, item, i) && CalledAt(q, item, |p.calls|);
    assert forall k: nat, j: nat :: HeldBy(q, k, j) <==> HeldBy(p, k, j) && j != i;
    assert forall k: nat, r: nat :: CalledAt(q, k, r) <==> CalledAt(p, k, r) || (k == item && r == |p.calls|);
    forall k: nat
      ensures Taken(q, k) <==> Taken(p, k)
    {
      if j: nat :| HeldBy(p, k, j) && j != i {
        assert HeldBy(q, k, j);
      }
    }
  }

  lemma TakeItemKeepsTakenOnce(items: nat, p: Pool, i: nat)
    requires QueueInOrder(items, p) && TakenOnce(items, p)
    requires i < |p.workers| && p.workers[i].Get? && p.queue != []
    ensures QueueInOrder(items, TakeItem(p, i)) && TakenOnce(items, TakeItem(p, i))
  {
    var q, item := TakeItem(p, i), p.queue[0];
    assert HeldBy(q, item, i);
    assert !Taken(p, item);
    assert forall k: nat, j: nat :: HeldBy(q, k, j) <==> HeldBy(p, k, j) || (k == item && j == i);
    assert forall k: nat, r: nat :: CalledAt(q, k, r) <==> CalledAt(p, k, r);
    forall k: nat
      ensures Taken(q, k) <==> Taken(p, k) || k == item
    {
      if j: nat :| HeldBy(p, k, j) {
        assert HeldBy(q, k, j);
      }
    }
  }

  lemma SameItems(items: nat, p: Pool, q: Pool)
    requires QueueInOrder(items, p) && TakenOnce(items, p)
    requires q.queue == p.queue && q.calls == p.calls && |q.workers| == |p.workers|
    requires forall i | 0 <= i < |p.workers| ::
               q.workers[i] == p.workers[i] || (!p.workers[i].Running? && !q.workers[i].Running?)
    ensures QueueInOrder(items, q) && TakenOnce(items, q)
  {
    assert forall k: nat, j: nat :: HeldBy(q, k, j) <==> HeldBy(p, k, j);
    assert forall k: nat, r: nat :: CalledAt(q, k, r) <==> CalledAt(p, k, r);
    assert forall k: nat :: Taken(q, k) <==> Taken(p, k);
  }

  lemma StepKeepsItems(items: nat, p: Pool, q: Pool, i: nat)
    requires QueueInOrder(items, p) && TakenOnce(items, p) && WorkerStep(p, q, i)
    ensures QueueInOrder(items, q) && TakenOnce(items, q)
  {
    if p.workers[i].Running? {
      var v :| q == EndCall(p, i, v);
      EndCallKeepsTakenOnce(items, p, i, v);
    } else if p.workers[i].Get? && p.queue != [] {
      TakeItemKeepsTakenOnce(items, p, i);
    } else {
      SameItems(items, p, q);
    }
  }

  lemma StepKeepsResultTracks(p: Pool, q: Pool, i: nat)
    requires ResultTracks(p) && WorkerStep(p, q, i)
    ensures ResultTracks(q)
  {
    assert forall j: nat | j != i :: Pending(q, j) <==> Pending(p, j);
    assert forall r | 0 <= r < |p.calls| :: q.calls[r] == p.calls[r];
    if p.workers[i].Running? {
      var v := q.calls[|p.calls|].verdict;
      assert !Pending(p, i);
      assert v == Falsy ==> SomeFalsy(q) && Pending(q, i);
      assert SomeFalsy(q) <==> SomeFalsy(p) || v == Falsy;
    } else {
      assert q.calls == p.calls;
      if p.workers[i] == Returned(false) {
        assert Pending(p, i) && Pending(q, i);
      }
      if p.workers[i].WriteResult? {
        assert Pending(p, i);
      }
    }
  }

  lemma StepKeepsStopJustified(p: Pool, q: Pool, i: nat)
    requires StopJustified(p) && WorkerStep(p, q, i)
    ensures StopJustified(q)
  {
    if p.event {
      var j :| 0 <= j < |p.workers| && p.workers[j].Finished?;
      assert q.workers[j].Finished?;
    } else if q.event {
      assert q.workers[i].Finished?;
    } else if !q.result {
      if p.workers[i].WriteResult? {
        assert q.workers[i].SetEvent?;
      } else {
        var j :| 0 <= j < |p.workers| && p.workers[j].SetEvent?;
        assert q.workers[j].SetEvent?;
      }
    }
  }

  lemma StepKeepsCounts(p: Pool, q: Pool, i: nat)
    requires LateBounded(p) && p.unfinished == |p.queue| + AtRunning(p.workers) && WorkerStep(p, q, i)
    ensures LateBounded(q) && q.unfinished == |q.queue| + AtRunning(q.workers)
  {
    CountsAfterMove(p.workers, i, q.workers[i]);
    if q.event && !p.event {
      AtGetBound(q.workers, i);
    }
  }

  lemma RaisesMore(calls: seq<Call>, c: Call)
    ensures Raises(calls + [c]) == Raises(calls) + Bit(c.verdict == Raised)
  {
    assert (calls + [c])[..|calls|] == calls;
  }

  lemma StepKeepsRaises(p: Pool, q: Pool, i: nat)
    requires AtCrashed(p.workers) == Raises(p.calls) && WorkerStep(p, q, i)
    ensures AtCrashed(q.workers) == Raises(q.calls)
  {
    if p.workers[i].Running? {
      var v :| q == EndCall(p, i, v);
      CountsAfterMove(p.workers, i, AfterCall(v));
      RaisesMore(p.calls, Call(p.workers[i].item, v));
    } else {
      CountsAfterMove(p.workers, i, q.workers[i]);
      assert q.calls == p.calls && q.workers == p.workers[i := q.workers[i]];
    }
  }

  lemma StepKeepsMainTracks(p: Pool, q: Pool, i: nat)
    requires MainTracks(p) && WorkerStep(p, q, i)
    ensures MainTracks(q)
  {
    assert !p.workers[i].Over();
    assert forall j | 0 <= j < |p.workers| && j != i :: q.workers[j] == p.workers[j];
  }

  lemma WorkerKeepsInv(items: nat, workers: nat, p: Pool, q: Pool, i: nat)
    requires Inv(items, workers, p) && WorkerStep(p, q, i)
    ensures Inv(items, workers, q)
  {
    StepKeepsItems(items, p, q, i);
    StepKeepsResultTracks(p, q, i);
    StepKeepsStopJustified(p, q, i);
    StepKeepsCounts(p, q, i);
    StepKeepsRaises(p, q, i);
    StepKeepsMainTracks(p, q, i);
  }

  lemma MainKeepsInv(items: nat, workers: nat, p: Pool, q: Pool)
    requires Inv(items, workers, p) && MainStep(p, q)
    ensures Inv(items, workers, q)
  {
    SameItems(items, p, q);
    assert forall j: nat :: Pending(q, j) <==> Pending(p, j);
    assert SomeFalsy(q) <==> SomeFalsy(p);
  }

  lemma StepKeepsInv(items: nat, workers: nat, p: Pool, q: Pool)
    requires Inv(items, workers, p) && Step(p, q)
    ensures Inv(items, workers, q)
  {
    if i: nat :| WorkerStep(p, q, i) {
      WorkerKeepsInv(items, workers, p, q, i);
    } else {
      MainKeepsInv(items, workers, p, q);
    }
  }

  /** Every state of every run satisfies the invariant. */
  lemma {:induction false} RunInv(items: nat, workers: nat, run: seq<Pool>)
    requires Run(items, workers, run)
    ensures Inv(items, workers, Last(run))
  {
    var l := |run| - 1;
    if l == 0 {
      CountsAtStart(run[0].workers);
      assert forall k: nat :: !Taken(run[0], k);
      assert forall i: nat :: !Pending(run[0], i);
    } else {
      RunInv(items, workers, run[..l]);
      StepKeepsInv(items, workers, run[l - 1], run[l]);
    }
  }

  // ---------- the main results, over every interleaving

  /** Item k was the subject of exactly one ended call. */
  ghost predicate CalledOnce(p: Pool, k: nat) {
    exists r: nat :: CalledAt(p, k, r) && forall s: nat :: CalledAt(p, k, s) ==> s == r
  }

  ghost predicate HeldOnce(p: Pool, k: nat) {
    exists i: nat :: HeldBy(p, k, i) && forall j: nat :: HeldBy(p, k, j) ==> j == i
  }

  /** Item k is in exactly one place: queued, with one worker, or in one ended call. */
  ghost predicate InOnePlace(p: Pool, k: nat) {
    || (k in p.queue && !Taken(p, k))
    || (k !in p.queue && HeldOnce(p, k) && forall r: nat :: !CalledAt(p, k, r))
    || (k !in p.queue && CalledOnce(p, k) && forall i: nat :: !HeldBy(p, k, i))
  }

  lemma ItemInOnePlace(items: nat, p: Pool, k: nat)
    requires QueueInOrder(items, p) && TakenOnce(items, p) && k < items
    ensures InOnePlace(p, k)
  {
    var taken := items - |p.queue|;
    if k < taken {
      assert Taken(p, k);
      if i: nat :| HeldBy(p, k, i) {
        assert HeldOnce(p, k);
      } else {
        assert CalledOnce(p, k);
      }
    } else {
      assert p.queue[k - taken] == k;
    }
  }

  /**
    In every reachable state no item is lost or taken twice, a worker that left its
    loop leaves the event set, and fewer items than there are workers are taken
    after the event was set.
   */
  lemma NoItemLost(items: nat, workers: nat, run: seq<Pool>)
    requires Run(items, workers, run)
    ensures var p := Last(run);
            && |p.workers| == workers
            && (forall k: nat | k < items :: InOnePlace(p, k))
            && (forall i | 0 <= i < workers && p.workers[i].Finished? :: p.event)
            && (p.late > 0 ==> p.event && p.late < workers)
  {
    RunInv(items, workers, run);
    forall k: nat | k < items
      ensures InOnePlace(Last(run), k)
    {
      ItemInOnePlace(items, Last(run), k);
    }
  }

  /**
    What a returning pool says: True exactly when every item was called once and no
    call gave a false value; False exactly when some call did.
   */
  lemma ReturnedValue(items: nat, workers: nat, run: seq<Pool>)
    requires Run(items, workers, run) && Last(run).main.Done?
    ensures var p := Last(run);
            && (p.main.value <==> (forall k: nat | k < items :: CalledOnce(p, k)) &&
                                  (forall r | 0 <= r < |p.calls| :: p.calls[r].verdict != Falsy))
            && (!p.main.value <==> SomeFalsy(p))
  {
    RunInv(items, workers, run);
    var p := Last(run);
    assert forall i | 0 <= i < workers :: p.workers[i].Over();
    assert forall i: nat :: !Pending(p, i);
    assert forall k: nat, i: nat :: !HeldBy(p, k, i);
    if p.result {
      forall k: nat | k < items
        ensures CalledOnce(p, k)
      {
        ItemInOnePlace(items, p, k);
      }
    }
  }

  /** Each action of a worker lowers this measure; the waiting thread leaves it alone. */
  ghost function Measure(p: Pool): nat {
    4 * |p.queue| + Ranks(p.workers)
  }

  lemma WorkerStepDescends(p: Pool, q: Pool, i: nat)
    requires WorkerStep(p, q, i)
    ensures Measure(q) < Measure(p)
  {
    CountsAfterMove(p.workers, i, q.workers[i]);
  }

  /** Steps left at most: those of the workers, then the waiting thread's own. */
  ghost function StepsLeft(p: Pool): int {
    var own := match p.main
               case Waiting => |p.workers| + 2
               case Joining(k) => |p.workers| + 1 - k
               case Done(_) => 0;
    Measure(p) + own
  }

  lemma StepDescends(p: Pool, q: Pool)
    requires MainTracks(p) && Step(p, q)
    ensures StepsLeft(q) < StepsLeft(p)
  {
    if i: nat :| WorkerStep(p, q, i) {
      WorkerStepDescends(p, q, i);
    }
  }

  lemma StepsLeftAtStart(items: nat, workers: nat)
    ensures StepsLeft(Init(items, workers)) == 4 * items + 4 * workers + 2
  {
    CountsAtStart(Init(items, workers).workers);
  }

  /** Every run ends: its length is bounded by the number of items and workers. */
  lemma {:induction false} RunsAreBounded(items: nat, workers: nat, run: seq<Pool>)
    requires Run(items, workers, run)
    ensures |run| + StepsLeft(Last(run)) <= 4 * items + 4 * workers + 3
    ensures 0 <= StepsLeft(Last(run))
  {
    RunInv(items, workers, run);
    var l := |run| - 1;
    if l == 0 {
      StepsLeftAtStart(items, workers);
    } else {
      var before := run[..l];
      RunsAreBounded(items, workers, before);
      RunInv(items, workers, before);
      StepDescends(Last(before), Last(run));
    }
  }

  /** A worker that is not over can always act: no worker waits for another. */
  lemma WorkerNeverBlocks(items: nat, workers: nat, p: Pool, i: nat, f: nat -> Verdict) returns (q: Pool)
    requires Inv(items, workers, p) && i < workers && !p.workers[i].Over()
    ensures WorkerStep(p, q, i) && (Follows(p, f) ==> Follows(q, f))
  {
    match p.workers[i] {
      case Check => q := p.Move(i, if p.event then Finished else Get);
      case Get => q := if p.queue == [] then p.Move(i, SetEvent) else TakeItem(p, i);
      case Running(item) =>
        CountsAfterMove(p.workers, i, Crashed);
        q := EndCall(p, i, f(item));
      case Returned(ok) => q := p.Move(i, if ok then Check else WriteResult);
      case WriteResult => q := p.Move(i, SetEvent).(result := false);
      case SetEvent => q := p.Move(i, Finished).(event := true);
    }
  }

  /**
    A run can go no further exactly when the pool has returned, or the caller still
    waits and every worker was ended by an exception.
   */
  lemma StuckExactly(items: nat, workers: nat, run: seq<Pool>)
    requires Run(items, workers, run)
    ensures var p := Last(run);
            && |p.workers| == workers
            && ((exists q :: Step(p, q)) <==>
                !p.main.Done? && !(p.main.Waiting? && forall i | 0 <= i < workers :: p.workers[i].Crashed?))
  {
    RunInv(items, workers, run);
    var p := Last(run);
    if i: nat :| i < workers && !p.workers[i].Over() {
      var q := WorkerNeverBlocks(items, workers, p, i, k => Truthy);
      assert Step(p, q);
    } else {
      assert forall i: nat | i < workers :: p.workers[i].Over();
      match p.main {
        case Waiting =>
          if p.event {
            assert Step(p, p.(main := Joining(0)));
          }
        case Joining(k) =>
          assert Step(p, p.(main := if k < workers then Joining(k + 1) else Done(p.result)));
        case Done(_) =>
      }
    }
  }

  // ---------- the pool for a given work function

  /** Every call so far ended as f says of its item. */
  ghost predicate Follows(p: Pool, f: nat -> Verdict) {
    forall r | 0 <= r < |p.calls| :: p.calls[r].verdict == f(p.calls[r].item)
  }

  /** The first n items, in the order of the queue, hold no item with a false value. */
  ghost predicate NoFalsy(f: nat -> Verdict, n: nat) {
    forall k: nat | k < n :: f(k) != Falsy
  }

  /** The number of items before the first one with a false value. */
  ghost function BeforeFalsy(f: nat -> Verdict, items: nat): (n: nat)
    ensures n <= items && NoFalsy(f, n) && (n < items ==> f(n) == Falsy)
  {
    if items == 0 then 0
    else
      var n := BeforeFalsy(f, items - 1);
      if n == items - 1 && f(n) != Falsy then items else n
  }

  ghost function Raising(f: nat -> Verdict, n: nat): set<nat> {
    set k: nat | k < n && f(k) == Raised
  }

  /** The items of the calls that raised. */
  ghost function RaisedItems(calls: seq<Call>): set<nat> {
    if calls == [] then {}
    else
      var c := calls[|calls| - 1];
      RaisedItems(calls[..|calls| - 1]) + if c.verdict == Raised then {c.item} else {}
  }

  lemma {:induction false} RaisedItemsHold(calls: seq<Call>, k: nat)
    ensures k in RaisedItems(calls) <==> exists r :: 0 <= r < |calls| && calls[r] == Call(k, Raised)
  {
    if calls != [] {
      RaisedItemsHold(calls[..|calls| - 1], k);
    }
  }

  lemma {:induction false} RaisesAsItems(calls: seq<Call>)
    requires forall r, s | 0 <= r < s < |calls| :: calls[r].item != calls[s].item
    ensures Raises(calls) == |RaisedItems(calls)|
  {
    if calls != [] {
      var front := calls[..|calls| - 1];
      RaisesAsItems(front);
      RaisedItemsHold(front, calls[|calls| - 1].item);
    }
  }

  /** When no worker is inside a call, the calls that raised are those of the raising items taken. */
  lemma RaisesOfTaken(items: nat, p: Pool, f: nat -> Verdict)
    requires QueueInOrder(items, p) && TakenOnce(items, p) && Follows(p, f)
    requires forall i | 0 <= i < |p.workers| :: p.workers[i].Over()
    ensures Raises(p.calls) == |Raising(f, items - |p.queue|)|
  {
    var taken := items - |p.queue|;
    forall r, s | 0 <= r < s < |p.calls|
      ensures p.calls[r].item != p.calls[s].item
    {
      assert CalledAt(p, p.calls[r].item, r) && CalledAt(p, p.calls[s].item, s);
    }
    RaisesAsItems(p.calls);
    forall k: nat
      ensures k in RaisedItems(p.calls) <==> k in Raising(f, taken)
    {
      assert forall i: nat :: !HeldBy(p, k, i);
      assert Taken(p, k) <==> k < taken;
      RaisedItemsHold(p.calls, k);
      if k in Raising(f, taken) {
        var r: nat :| CalledAt(p, k, r);
        assert p.calls[r] == Call(k, Raised);
      } else if r: nat :| r < |p.calls| && p.calls[r] == Call(k, Raised) {
        assert CalledAt(p, k, r);
      }
    }
    assert RaisedItems(p.calls) == Raising(f, taken);
  }

  lemma {:induction false} SubsetSize<T>(a: set<T>, b: set<T>)
    requires a <= b
    ensures |a| <= |b|
  {
    if a != {} {
      var x :| x in a;
      SubsetSize(a - {x}, b - {x});
    }
  }

  lemma RaisingGrows(f: nat -> Verdict, m: nat, n: nat)
    requires m <= n
    ensures |Raising(f, m)| <= |Raising(f, n)|
  {
    SubsetSize(Raising(f, m), Raising(f, n));
  }

  /** A returned value depends on the work function alone: True exactly when no item gives a false value. */
  lemma ReturnedValueOf(items: nat, workers: nat, run: seq<Pool>, f: nat -> Verdict)
    requires Run(items, workers, run) && Last(run).main.Done? && Follows(Last(run), f)
    ensures Last(run).main.value <==> NoFalsy(f, items)
  {
    ReturnedValue(items, workers, run);
    RunInv(items, workers, run);
    var p := Last(run);
    if p.main.value {
      forall k: nat | k < items
        ensures f(k) != Falsy
      {
        assert CalledOnce(p, k);
        var r: nat :| CalledAt(p, k, r);
      }
    } else {
      var r :| 0 <= r < |p.calls| && p.calls[r].verdict == Falsy;
      var k := p.calls[r].item;
      assert CalledAt(p, k, r);
      assert Taken(p, k);
    }
  }

  /** A returned True hides an exception exactly when no item gives a false value and some item raises. */
  lemma TrueHidesRaiseExactly(items: nat, workers: nat, run: seq<Pool>, f: nat -> Verdict)
    requires Run(items, workers, run) && Last(run).main.Done? && Follows(Last(run), f)
    ensures Last(run).main.value && (exists r :: 0 <= r < |Last(run).calls| && Last(run).calls[r].verdict == Raised)
            <==> NoFalsy(f, items) && Raising(f, items) != {}
  {
    ReturnedValueOf(items, workers, run, f);
    ReturnedValue(items, workers, run);
    RunInv(items, workers, run);
    var p := Last(run);
    if r :| 0 <= r < |p.calls| && p.calls[r].verdict == Raised {
      assert CalledAt(p, p.calls[r].item, r);
      assert Taken(p, p.calls[r].item);
      assert p.calls[r].item in Raising(f, items);
    }
    if p.main.value && Raising(f, items) != {} {
      var k :| k in Raising(f, items);
      assert CalledOnce(p, k);
      var r: nat :| CalledAt(p, k, r);
      assert p.calls[r].verdict == Raised;
    }
  }

  /** A returned pool met fewer raising items than it has workers before the first false value. */
  lemma ReturnedHasWorkersLeft(items: nat, workers: nat, run: seq<Pool>, f: nat -> Verdict)
    requires Run(items, workers, run) && Last(run).main.Done? && Follows(Last(run), f)
    ensures |Raising(f, BeforeFalsy(f, items))| < workers
  {
    RunInv(items, workers, run);
    var p := Last(run);
    var taken := items - |p.queue|;
    AllCrashedExactly(p.workers);
    var i :| 0 <= i < workers && p.workers[i].Finished?;
    assert !p.workers[i].Crashed?;
    RaisesOfTaken(items, p, f);
    ReturnedValue(items, workers, run);
    if p.main.value {
      assert p.queue == [];
    } else {
      var r :| 0 <= r < |p.calls| && p.calls[r].verdict == Falsy;
      assert CalledAt(p, p.calls[r].item, r);
      assert Taken(p, p.calls[r].item);
    }
    assert BeforeFalsy(f, items) <= taken;
    RaisingGrows(f, BeforeFalsy(f, items), taken);
  }

  /** A pool whose workers all ended by an exception met that many raising items before any false value. */
  lemma AllCrashedMeans(items: nat, workers: nat, run: seq<Pool>, f: nat -> Verdict)
    requires Run(items, workers, run) && Follows(Last(run), f)
    requires |Last(run).workers| == workers && forall i | 0 <= i < workers :: Last(run).workers[i].Crashed?
    ensures |Raising(f, BeforeFalsy(f, items))| >= workers
  {
    RunInv(items, workers, run);
    var p := Last(run);
    var taken := items - |p.queue|;
    AllCrashedExactly(p.workers);
    RaisesOfTaken(items, p, f);
    assert !p.event;
    assert p.result && forall i: nat :: !Pending(p, i);
    assert !SomeFalsy(p);
    forall k: nat | k < taken
      ensures f(k) != Falsy
    {
      assert Taken(p, k);
      var r: nat :| CalledAt(p, k, r);
      assert p.calls[r].verdict != Falsy;
    }
    RaisingGrows(f, taken, BeforeFalsy(f, items));
  }

  /**
    Whether the pool returns is settled by the work function and the order of the items,
    whatever the schedule: a run that can go no further has returned exactly when fewer
    items raise before the first false value than there are workers. Otherwise the caller
    waits for ever.
   */
  lemma ReturnsExactly(items: nat, workers: nat, run: seq<Pool>, f: nat -> Verdict)
    requires Run(items, workers, run) && Follows(Last(run), f) && forall q :: !Step(Last(run), q)
    ensures Last(run).main.Done? <==> |Raising(f, BeforeFalsy(f, items))| < workers
  {
    StuckExactly(items, workers, run);
    if Last(run).main.Done? {
      ReturnedHasWorkersLeft(items, workers, run, f);
    } else {
      AllCrashedMeans(items, workers, run, f);
    }
  }

  /** Every run that follows f goes on, following f, to one that can go no further. */
  lemma {:induction false} RunCompletes(items: nat, workers: nat, run: seq<Pool>, f: nat -> Verdict)
    returns (longer: seq<Pool>)
    requires Run(items, workers, run) && Follows(Last(run), f)
    ensures run <= longer && Run(items, workers, longer) && Follows(Last(longer), f)
    ensures forall q :: !Step(Last(longer), q)
    decreases 4 * items + 4 * workers + 3 - |run|
  {
    longer := run;
    if q :| Step(Last(run), q) {
      var next := FollowingStep(items, workers, run, q, f);
      longer := RunExtends(items, workers, run, next);
      RunsAreBounded(items, workers, longer);
      longer := RunCompletes(items, workers, longer, f);
    }
  }

  lemma FollowingStep(items: nat, workers: nat, run: seq<Pool>, q: Pool, f: nat -> Verdict) returns (next: Pool)
    requires Run(items, workers, run) && Follows(Last(run), f) && Step(Last(run), q)
    ensures Step(Last(run), next) && Follows(next, f)
  {
    var p := Last(run);
    if i: nat :| WorkerStep(p, q, i) {
      RunInv(items, workers, run);
      next := WorkerNeverBlocks(items, workers, p, i, f);
    } else {
      next := q;
    }
  }

  lemma RunExtends(items: nat, workers: nat, run: seq<Pool>, q: Pool) returns (longer: seq<Pool>)
    requires Run(items, workers, run) && Step(Last(run), q)
    ensures longer == run + [q] && Run(items, workers, longer)
  {
    longer := run + [q];
  }

  lemma RunOn(items: nat, workers: nat, run: seq<Pool>, q: Pool, i: nat) returns (longer: seq<Pool>)
    requires Run(items, workers, run) && WorkerStep(Last(run), q, i)
    ensures Run(items, workers, longer) && Last(longer) == q
  {
    assert Step(Last(run), q);
    longer := run + [q];
  }

  /** One worker takes the only item and raises; the other finds the queue empty and stops the pool. */
  lemma RaiseThenStop() returns (run: seq<Pool>)
    ensures Run(1, 2, run)
    ensures Last(run) == Pool([], true, true, 0, [Crashed, Finished], Waiting, [Call(0, Raised)], 0)
  {
    var p0 := Pool([0], false, true, 1, [Check, Check], Waiting, [], 0);
    var p1 := p0.(workers := [Get, Check]);
    var p2 := p1.(workers := [Running(0), Check], queue := []);
    var p3 := p2.(workers := [Crashed, Check], unfinished := 0, calls := [Call(0, Raised)]);
    var p4 := p3.(workers := [Crashed, Get]);
    var p5 := p4.(workers := [Crashed, SetEvent]);
    var p6 := p5.(workers := [Crashed, Finished], event := true);
    assert p0 == Init(1, 2);
    run := [p0];
    run := RunOn(1, 2, run, p1, 0);
    run := RunOn(1, 2, run, p2, 0);
    assert p3 == EndCall(p2, 0, Raised);
    run := RunOn(1, 2, run, p3, 0);
    run := RunOn(1, 2, run, p4, 1);
    run := RunOn(1, 2, run, p5, 1);
    run := RunOn(1, 2, run, p6, 1);
  }

  /** True can be returned although the only item's call raised: the other worker stops the pool. */
  lemma TrueDespiteRaise() returns (run: seq<Pool>)
    ensures Run(1, 2, run)
    ensures Last(run).main == Done(true) && Last(run).calls == [Call(0, Raised)]
  {
    run := RaiseThenStop();
    var p := Last(run);
    run := RunExtends(1, 2, run, p.(main := Joining(0)));
    run := RunExtends(1, 2, run, p.(main := Joining(1)));
    run := RunExtends(1, 2, run, p.(main := Joining(2)));
    run := RunExtends(1, 2, run, p.(main := Done(true)));
  }

  /** The only worker takes the only item and raises: nobody sets the event, and the caller waits for ever. */
  lemma WaitsForEver() returns (run: seq<Pool>)
    ensures Run(1, 1, run) && !Last(run).main.Done? && forall q :: !Step(Last(run), q)
  {
    var p0 := Pool([0], false, true, 1, [Check], Waiting, [], 0);
    var p1 := p0.(workers := [Get]);
    var p2 := p1.(workers := [Running(0)], queue := []);
    var p3 := p2.(workers := [Crashed], unfinished := 0, calls := [Call(0, Raised)]);
    assert p0 == Init(1, 1);
    run := [p0];
    run := RunOn(1, 1, run, p1, 0);
    run := RunOn(1, 1, run, p2, 0);
    assert p3 == EndCall(p2, 0, Raised);
    run := RunOn(1, 1, run, p3, 0);
    StuckExactly(1, 1, run);
  }
}
