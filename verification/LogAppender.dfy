/**
  The buffered log sender: lines gather in a buffer, a full or old buffer is sent as one
  batch, and a batch that is refused goes to a second buffer to be sent again.
 */
module LogAppender {
  import opened FileText

  datatype Entry = Entry(time: real, line: string)

  /** The two buffers. */
  datatype Buffers = Buffers(buf: seq<Entry>, retrybuf: seq<Entry>)

  /** The buffers after a batch was handed to the callback. */
  function Submitted(b: Buffers, accept: bool): Buffers {
    if accept then Buffers([], []) else Buffers([], b.retrybuf + b.buf)
  }

  /** The list handed to the callback: the new lines come before those refused earlier. */
  function Batch(b: Buffers): seq<Entry> {
    b.buf + b.retrybuf
  }

  /** One call: a line that does or does not make a submit due, or a submit by itself. */
  datatype Event =
    | Line(entry: Entry, due: bool, accept: bool)
    | Submit(accept: bool)

  datatype Log = Log(buffers: Buffers, sent: seq<seq<Entry>>)

  function AfterSubmit(l: Log, accept: bool): Log {
    if Batch(l.buffers) == [] then l
    else l.(buffers := Submitted(l.buffers, accept),
            sent := if accept then l.sent + [Batch(l.buffers)] else l.sent)
  }

  function AfterEvent(l: Log, e: Event): Log {
    match e
    case Line(x, due, accept) =>
      var m := l.(buffers := l.buffers.(buf := l.buffers.buf + [x]));
      if due then AfterSubmit(m, accept) else m
    case Submit(accept) => AfterSubmit(l, accept)
  }

  /** The state after any sequence of calls. */
  ghost function Run(events: seq<Event>): Log {
    if events == [] then Log(Buffers([], []), [])
    else AfterEvent(Run(events[..|events| - 1]), events[|events| - 1])
  }

  /** The lines that were given in the calls, in order. */
  ghost function Given(events: seq<Event>): seq<Entry> {
    if events == [] then []
    else
      var before, e := Given(events[..|events| - 1]), events[|events| - 1];
      if e.Line? then before + [e.entry] else before
  }

  lemma RunNext(events: seq<Event>, e: Event)
    ensures Run(events + [e]) == AfterEvent(Run(events), e)
    ensures Given(events + [e]) == Given(events) + if e.Line? then [e.entry] else []
  {
    assert (events + [e])[..|events|] == events;
  }

  // ---------- the appender itself

  class Appender {
    const sendAfterLines: int
    const sendAfterSeconds: real
    var buf: seq<Entry>
    var retrybuf: seq<Entry>
    var lastSent: real
    ghost var arrived: seq<Entry>    // the lines given so far
    ghost var sent: seq<seq<Entry>>  // the batches accepted so far
    ghost var events: seq<Event>     // the calls so far

    ghost function State(): Log
      reads this
    {
      Log(Buffers(buf, retrybuf), sent)
    }

    /** The state is that of the run so far, and the buffer is never full between calls. */
    ghost predicate Valid()
      reads this
    {
      && State() == Run(events) && arrived == Given(events)
      && (sendAfterLines > 0 ==> |buf| < sendAfterLines)
    }

    constructor (sendAfterLines: int, sendAfterSeconds: real, now: real)
      ensures this.sendAfterLines == sendAfterLines && this.sendAfterSeconds == sendAfterSeconds
      ensures Valid() && events == [] && lastSent == now
    {
      this.sendAfterLines, this.sendAfterSeconds := sendAfterLines, sendAfterSeconds;
      buf, retrybuf, lastSent, arrived, sent, events := [], [], now, [], [], [];
    }

    /** The body of submit: true when nothing is left to send. */
    method Send(now: real, accept: bool) returns (ok: bool)
      modifies `buf, `retrybuf, `lastSent, `sent
      ensures State() == AfterSubmit(old(State()), accept)
      ensures ok <==> Batch(State().buffers) == []
      ensures buf == []
      ensures lastSent == if old(Batch(State().buffers)) == [] then old(lastSent) else now
    {
      if |buf| + |retrybuf| == 0 {
        return true;
      }
      lastSent := now;
      if accept {
        sent := sent + [buf + retrybuf];
        buf := [];
        retrybuf := [];
        return true;
      } else {
        retrybuf := retrybuf + buf;
        buf := [];
        return false;
      }
    }

    /** A call of submit from outside. */
    method Submit(now: real, accept: bool) returns (ok: bool)
      requires Valid()
      modifies this
      ensures Valid() && events == old(events) + [Event.Submit(accept)] && arrived == old(arrived)
      ensures sent == old(sent) + if accept && old(buf + retrybuf) != [] then [old(buf + retrybuf)] else []
      ensures ok <==> Batch(State().buffers) == []
      ensures ok <==> accept || old(Batch(State().buffers)) == []
      ensures lastSent == if old(Batch(State().buffers)) == [] then old(lastSent) else now
    {
      RunNext(events, Event.Submit(accept));
      ok := Send(now, accept);
      events := events + [Event.Submit(accept)];
    }

    /** A call with one line: append it, and submit when the buffer is full or old. */
    method Append(line: string, arrival: real, now: real, sending: real, accept: bool)
      requires Valid()
      modifies this
      ensures Valid() && arrived == old(arrived) + [Entry(arrival, line)]
      ensures var due := old(|buf|) + 1 >= sendAfterLines || now - old(lastSent) >= sendAfterSeconds;
              && events == old(events) + [Line(Entry(arrival, line), due, accept)]
              && sent == old(sent) + (if due && accept then [old(buf) + [Entry(arrival, line)] + old(retrybuf)] else [])
              && lastSent == (if due then sending else old(lastSent))
    {
      var x := Entry(arrival, line);
      buf := buf + [x];
      arrived := arrived + [x];
      var due := |buf| >= sendAfterLines || now - lastSent >= sendAfterSeconds;
      RunNext(events, Line(x, due, accept));
      if due {
        var _ := Send(sending, accept);
      }
      events := events + [Line(x, due, accept)];
    }

    /**
      The closing loop of wrap_test and wrap_global, where answer(k) is the callback's
      k-th reply: it delivers everything, or stops after six refusals with nothing lost.
     */
    method Finish(now: real, answer: nat -> bool) returns (ok: bool, attempts: nat)
      requires Valid()
      modifies this
      ensures Valid() && arrived == old(arrived) && events == old(events) + Submits(answer, attempts)
      ensures 1 <= attempts <= 6 && (ok <==> Batch(State().buffers) == [])
      ensures ok <==> old(Batch(State().buffers)) == [] || Accepted(answer, 6)
      ensures !ok ==> attempts == 6
    {
      var tries := 5;
      ghost var empty := Batch(State().buffers) == [];
      ok := Submit(now, answer(0));
      attempts := 1;
      SubmitsNext(old(events), answer, 0);
      while !ok && tries > 0
        invariant Valid() && arrived == old(arrived) && 0 <= tries <= 5 && attempts == 6 - tries
        invariant events == old(events) + Submits(answer, attempts)
        invariant ok <==> Batch(State().buffers) == []
        invariant ok <==> empty || Accepted(answer, attempts)
      {
        tries := tries - 1;
        SubmitsNext(old(events), answer, attempts);
        ok := Submit(now, answer(attempts));
        attempts := attempts + 1;
      }
      if Accepted(answer, attempts) {
        AcceptedStays(answer, attempts, 6);
      }
    }
  }

  /** One of the first so many answers accepts. */
  ghost predicate Accepted(answer: nat -> bool, attempts: nat) {
    attempts > 0 && (Accepted(answer, attempts - 1) || answer(attempts - 1))
  }

  lemma {:induction false} AcceptedExactly(answer: nat -> bool, attempts: nat)
    ensures Accepted(answer, attempts) <==> exists k: nat :: k < attempts && answer(k)
  {
    if attempts > 0 {
      AcceptedExactly(answer, attempts - 1);
    }
  }

  lemma {:induction false} AcceptedStays(answer: nat -> bool, m: nat, n: nat)
    requires m <= n && Accepted(answer, m)
    ensures Accepted(answer, n)
  {
    if m < n {
      AcceptedStays(answer, m, n - 1);
    }
  }

  /** The first so many submits of the closing loop. */
  ghost function Submits(answer: nat -> bool, attempts: nat): seq<Event> {
    if attempts == 0 then [] else Submits(answer, attempts - 1) + [Event.Submit(answer(attempts - 1))]
  }

  lemma SubmitsNext(before: seq<Event>, answer: nat -> bool, n: nat)
    ensures before + Submits(answer, n) + [Event.Submit(answer(n))] == before + Submits(answer, n + 1)
    ensures before + Submits(answer, 0) == before
  {
  }

  // ---------- every run

  /**
    The arrivals cut into the stretches that the accepted batches took, followed by what
    is pending. Each batch is its stretch with a back part moved to the front.
   */
  ghost predicate Accounts(l: Log, arrived: seq<Entry>, taken: seq<(seq<Entry>, seq<Entry>)>) {
    && |taken| == |l.sent|
    && (forall i | 0 <= i < |taken| :: l.sent[i] == taken[i].1 + taken[i].0)
    && arrived == Stretches(taken) + (l.buffers.retrybuf + l.buffers.buf)
  }

  ghost function Stretches(taken: seq<(seq<Entry>, seq<Entry>)>): seq<Entry> {
    if taken == [] then []
    else Stretches(taken[..|taken| - 1]) + (taken[|taken| - 1].0 + taken[|taken| - 1].1)
  }

  lemma SubmitAccounts(l: Log, arrived: seq<Entry>, taken: seq<(seq<Entry>, seq<Entry>)>, accept: bool)
    returns (taken': seq<(seq<Entry>, seq<Entry>)>)
    requires Accounts(l, arrived, taken)
    ensures Accounts(AfterSubmit(l, accept), arrived, taken')
  {
    taken' := taken;
    var b := l.buffers;
    if Batch(b) != [] && accept {
      taken' := taken + [(b.retrybuf, b.buf)];
      assert taken'[..|taken|] == taken;
    }
  }

  /**
    For every run of appends and submits with any answers: the refused lines followed by
    the new ones are exactly the lines given since the last accepted batch, in arrival order,
    and each earlier line is in exactly one batch.
   */
  lemma {:induction false} RunAccounts(events: seq<Event>) returns (taken: seq<(seq<Entry>, seq<Entry>)>)
    ensures Accounts(Run(events), Given(events), taken)
  {
    if events == [] {
      taken := [];
    } else {
      var e := events[|events| - 1];
      taken := RunAccounts(events[..|events| - 1]);
      var l := Run(events[..|events| - 1]);
      match e {
        case Line(x, due, accept) =>
          var m := l.(buffers := l.buffers.(buf := l.buffers.buf + [x]));
          assert Accounts(m, Given(events), taken);
          if due {
            taken := SubmitAccounts(m, Given(events), taken, accept);
          }
        case Submit(accept) =>
          taken := SubmitAccounts(l, Given(events), taken, accept);
      }
    }
  }

  lemma {:induction false} StretchesAsBatches(sent: seq<seq<Entry>>, taken: seq<(seq<Entry>, seq<Entry>)>)
    requires |taken| == |sent| && forall i | 0 <= i < |taken| :: sent[i] == taken[i].1 + taken[i].0
    ensures multiset(Concat(sent)) == multiset(Stretches(taken))
  {
    if taken != [] {
      var l := |taken| - 1;
      StretchesAsBatches(sent[..l], taken[..l]);
      ConcatSplit(sent, l);
      assert sent[l + 1..] == [];
      assert multiset(taken[l].1 + taken[l].0) == multiset(taken[l].0 + taken[l].1);
    }
  }

  /** Accepted batches and pending lines together hold each arrival exactly once. */
  lemma NothingLost(events: seq<Event>)
    ensures var l := Run(events);
            multiset(Given(events)) ==
            multiset(Concat(l.sent)) + multiset(l.buffers.retrybuf) + multiset(l.buffers.buf)
  {
    var l := Run(events);
    var taken := RunAccounts(events);
    StretchesAsBatches(l.sent, taken);
  }
}
