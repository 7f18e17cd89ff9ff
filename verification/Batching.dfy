/** The client's batch accumulator and the metrics it keeps. */
module Batching {
  import opened Wrappers

  datatype Item = Item(value: real, unit: string)

  /** What a submission comes to: the backend takes the batch, refuses it, or the submission throws. */
  datatype Outcome = Taken | Refused | Thrown

  /** One call, with the outcome should it lead to a submission. */
  datatype Call = Add(item: Item, outcome: Outcome) | Flush(outcome: Outcome)

  /** One submission that came to an answer: the batch and whether the backend took it. */
  datatype Submission = Submission(batch: seq<Item>, accepted: bool)

  // ---- the specification: an accumulator as a value ----

  datatype State = State(pending: seq<Item>, submitted: seq<Submission>)

  /** A submission that throws leaves everything as it is. */
  function Flushed(s: State, outcome: Outcome): State {
    if s.pending == [] || outcome == Thrown then s else State([], s.submitted + [Submission(s.pending, outcome == Taken)])
  }

  function Step(size: nat, s: State, call: Call): State {
    match call
    case Flush(outcome) => Flushed(s, outcome)
    case Add(item, outcome) =>
      var fuller := s.(pending := s.pending + [item]);
      if |fuller.pending| >= size then Flushed(fuller, outcome) else fuller
  }

  function Run(size: nat, calls: seq<Call>): State {
    if calls == [] then State([], []) else Step(size, Run(size, calls[..|calls| - 1]), calls[|calls| - 1])
  }

  /** All items added, in order. */
  function Added(calls: seq<Call>): seq<Item> {
    if calls == [] then []
    else
      Added(calls[..|calls| - 1]) + match calls[|calls| - 1] case Add(item, _) => [item] case Flush(_) => []
  }

  function Batches(submitted: seq<Submission>): seq<Item> {
    if submitted == [] then []
    else Batches(submitted[..|submitted| - 1]) + submitted[|submitted| - 1].batch
  }

  /** Items of the batches with this outcome. */
  function Counted(submitted: seq<Submission>, accepted: bool): nat {
    if submitted == [] then 0
    else
      var last := submitted[|submitted| - 1];
      Counted(submitted[..|submitted| - 1], accepted) + if last.accepted == accepted then |last.batch| else 0
  }

  /** The size that takes effect: a batch size of zero submits every item at once, as one does. */
  function EffectiveSize(size: nat): nat {
    if size == 0 then 1 else size
  }

  /** Nothing is lost, repeated or reordered, and every item is counted once or pending. */
  ghost predicate Conserves(s: State, added: seq<Item>) {
    && Batches(s.submitted) + s.pending == added
    && Counted(s.submitted, true) + Counted(s.submitted, false) + |s.pending| == |added|
  }

  /** Pending stays below the batch size and no batch exceeds it or is empty. */
  ghost predicate WithinSize(size: nat, s: State) {
    && |s.pending| < EffectiveSize(size)
    && forall i :: 0 <= i < |s.submitted| ==> 1 <= |s.submitted[i].batch| <= EffectiveSize(size)
  }

  lemma FlushConserves(s: State, outcome: Outcome)
    ensures var t := Flushed(s, outcome);
      && Batches(t.submitted) + t.pending == Batches(s.submitted) + s.pending
      && Counted(t.submitted, true) + Counted(t.submitted, false) + |t.pending|
         == Counted(s.submitted, true) + Counted(s.submitted, false) + |s.pending|
  {
    if s.pending != [] && outcome != Thrown {
      var t := Flushed(s, outcome);
      assert t.submitted[..|s.submitted|] == s.submitted;
    }
  }

  lemma StepConserves(size: nat, s: State, added: seq<Item>, call: Call)
    requires Conserves(s, added)
    ensures Conserves(Step(size, s, call), if call.Add? then added + [call.item] else added)
  {
    hide Batches, Counted;
    match call {
      case Flush(outcome) =>
        FlushConserves(s, outcome);
      case Add(item, outcome) =>
        FlushConserves(s.(pending := s.pending + [item]), outcome);
        assert Batches(s.submitted) + (s.pending + [item]) == added + [item];
    }
  }

  /** What holds after any run of adds and flushes, whatever the backend answers and whatever throws. */
  lemma {:induction false} RunConserves(size: nat, calls: seq<Call>)
    ensures Conserves(Run(size, calls), Added(calls))
  {
    if calls != [] {
      var k := |calls| - 1;
      RunConserves(size, calls[..k]);
      hide Conserves, Step;
      StepConserves(size, Run(size, calls[..k]), Added(calls[..k]), calls[k]);
      assert Added(calls[..k]) + [] == Added(calls[..k]);
    }
  }

  // ---- the size bounds, and the submissions that break them ----

  /** Call i is an add with at least a full batch pending, whose submission throws. */
  predicate ThrowsOnAdd(size: nat, calls: seq<Call>, i: int) {
    && 0 <= i < |calls| && calls[i].Add? && calls[i].outcome == Thrown
    && |Run(size, calls[..i]).pending| + 1 >= size
  }

  /** The bounds hold after the first k calls. */
  ghost predicate BoundedAt(size: nat, calls: seq<Call>, k: int) {
    0 <= k <= |calls| && WithinSize(size, Run(size, calls[..k]))
  }

  lemma SameBefore(size: nat, calls: seq<Call>, k: int)
    requires calls != []
    ensures k < |calls| ==> BoundedAt(size, calls, k) == BoundedAt(size, calls[..|calls| - 1], k)
    ensures k < |calls| - 1 ==> ThrowsOnAdd(size, calls, k) == ThrowsOnAdd(size, calls[..|calls| - 1], k)
    ensures k >= |calls| - 1 ==> !ThrowsOnAdd(size, calls[..|calls| - 1], k)
  {
    if 0 <= k < |calls| {
      assert calls[..|calls| - 1][..k] == calls[..k];
    }
  }

  lemma LastBounded(size: nat, calls: seq<Call>)
    requires calls != [] && BoundedAt(size, calls, |calls| - 1)
    ensures BoundedAt(size, calls, |calls|) <==> !ThrowsOnAdd(size, calls, |calls| - 1)
  {
    assert calls[..|calls|] == calls;
    StepBounded(size, Run(size, calls[..|calls| - 1]), calls[|calls| - 1]);
    hide WithinSize, Step;
  }

  lemma StepBounded(size: nat, s: State, call: Call)
    requires WithinSize(size, s)
    ensures WithinSize(size, Step(size, s, call)) <==> !(call.Add? && call.outcome == Thrown && |s.pending| + 1 >= size)
  {
  }

  lemma {:induction false} FoldedBounds(size: nat, calls: seq<Call>)
    ensures (forall k :: 0 <= k <= |calls| ==> BoundedAt(size, calls, k)) <==> (forall i :: !ThrowsOnAdd(size, calls, i))
  {
    if calls != [] {
      hide BoundedAt, ThrowsOnAdd;
      var n := |calls| - 1;
      FoldedBounds(size, calls[..n]);
      forall k
        ensures k <= n ==> BoundedAt(size, calls, k) == BoundedAt(size, calls[..n], k)
        ensures k < n ==> ThrowsOnAdd(size, calls, k) == ThrowsOnAdd(size, calls[..n], k)
        ensures k >= n ==> !ThrowsOnAdd(size, calls[..n], k)
        ensures k > n ==> !ThrowsOnAdd(size, calls, k)
      {
        SameBefore(size, calls, k);
        NoSuchCall(size, calls, k);
      }
      if BoundedAt(size, calls, n) {
        LastBounded(size, calls);
      }
    } else {
      assert calls[..0] == [];
    }
  }

  lemma NoSuchCall(size: nat, calls: seq<Call>, i: int)
    ensures i >= |calls| ==> !ThrowsOnAdd(size, calls, i)
  {
  }

  /**
   * The size bounds hold at every moment of a run exactly when no add's submission has thrown; one
   * thrown by an explicit flush does not break them.
   */
  lemma BoundedUnlessAddThrows(size: nat, calls: seq<Call>)
    ensures (forall k :: 0 <= k <= |calls| ==> WithinSize(size, Run(size, calls[..k])))
       <==> (forall i :: !ThrowsOnAdd(size, calls, i))
  {
    FoldedBounds(size, calls);
    assert forall k :: 0 <= k <= |calls| ==> BoundedAt(size, calls, k) == WithinSize(size, Run(size, calls[..k]));
  }

  /** In particular at the end of a run in which no submission throws. */
  lemma BoundedWithoutThrows(size: nat, calls: seq<Call>)
    requires forall i :: 0 <= i < |calls| ==> calls[i].outcome != Thrown
    ensures WithinSize(size, Run(size, calls))
  {
    BoundedUnlessAddThrows(size, calls);
    assert calls[..|calls|] == calls;
  }

  /** A thrown submission is made up for, all of it at once, by the next one that is answered. */
  lemma NextAnswerTakesAll(size: nat, calls: seq<Call>, outcome: Outcome)
    requires outcome != Thrown && Run(size, calls).pending != []
    ensures var before, after := Run(size, calls), Run(size, calls + [Flush(outcome)]);
      after == State([], before.submitted + [Submission(before.pending, outcome == Taken)])
  {
    assert (calls + [Flush(outcome)])[..|calls|] == calls;
  }

  /** With batches of two: an add that throws leaves two items pending, and the next add submits three. */
  lemma ThrownAddExceedsTheSize(a: Item)
    ensures Run(2, [Add(a, Taken), Add(a, Thrown)]).pending == [a, a]
    ensures Run(2, [Add(a, Taken), Add(a, Thrown), Add(a, Taken)]) == State([], [Submission([a, a, a], true)])
  {
    var first, second := Add(a, Taken), Add(a, Thrown);
    assert [first, second, first][..2] == [first, second] && [first, second][..1] == [first] && [first][..0] == [];
    assert Run(2, [first]) == State([a], []) && Run(2, [first, second]) == State([a, a], []);
    assert [a, a] + [a] == [a, a, a];
  }

  /**
   * An add submits, all that is pending, exactly when that is at least a full batch and the submission
   * does not throw; it is just a full batch as long as no add's submission has thrown.
   */
  lemma AddSubmitsFullBatches(size: nat, calls: seq<Call>, item: Item, outcome: Outcome)
    ensures var before, after := Run(size, calls), Run(size, calls + [Add(item, outcome)]);
      if |before.pending| + 1 >= EffectiveSize(size) && outcome != Thrown
      then after == State([], before.submitted + [Submission(before.pending + [item], outcome == Taken)])
      else after == State(before.pending + [item], before.submitted)
    ensures (forall i :: !ThrowsOnAdd(size, calls, i)) ==> |Run(size, calls).pending| + 1 <= EffectiveSize(size)
  {
    assert (calls + [Add(item, outcome)])[..|calls|] == calls;
    BoundedUnlessAddThrows(size, calls);
    assert calls[..|calls|] == calls;
  }

  // ---- the client's objects ----

  class MetricsCollector {
    var successes: nat
    var failures: nat

    constructor ()
      ensures successes == 0 && failures == 0
    {
      successes, failures := 0, 0;
    }

    method RecordSuccess()
      modifies this
      ensures successes == old(successes) + 1 && failures == old(failures)
    {
      successes := successes + 1;
    }

    method RecordFailure()
      modifies this
      ensures failures == old(failures) + 1 && successes == old(successes)
    {
      failures := failures + 1;
    }
  }

  class BatchAccumulator {
    const batchSize: nat
    const metrics: MetricsCollector
    var items: seq<Item>
    /** Every call so far. */
    ghost var calls: seq<Call>
    /** What the collector had counted before this accumulator used it. */
    ghost const base: (nat, nat)

    ghost predicate Valid()
      reads this, metrics
    {
      var s := Run(batchSize, calls);
      && items == s.pending
      && metrics.successes == base.0 + Counted(s.submitted, true)
      && metrics.failures == base.1 + Counted(s.submitted, false)
    }

    constructor (batchSize: nat, metrics: MetricsCollector)
      ensures Valid() && this.batchSize == batchSize && this.metrics == metrics && calls == []
      ensures base == (metrics.successes, metrics.failures)
    {
      this.batchSize, this.metrics := batchSize, metrics;
      base := (metrics.successes, metrics.failures);
      items, calls := [], [];
    }

    /** Submits and counts what is pending; the answered submission is returned, or that it threw. */
    method FlushLocked(outcome: Outcome) returns (submission: Option<Submission>, threw: bool)
      modifies this`items, metrics
      ensures threw == (old(items) != [] && outcome == Thrown)
      ensures items == if threw then old(items) else []
      ensures submission == if old(items) == [] || threw then None else Some(Submission(old(items), outcome == Taken))
      ensures metrics.successes == old(metrics.successes) + (if outcome == Taken then |old(items)| else 0)
      ensures metrics.failures == old(metrics.failures) + (if outcome == Refused then |old(items)| else 0)
    {
      if |items| == 0 {
        return None, false;
      }
      if outcome == Thrown {
        return None, true;
      }
      submission, threw := Some(Submission(items, outcome == Taken)), false;
      if outcome == Taken {
        for i := 0 to |items|
          invariant metrics.successes == old(metrics.successes) + i && metrics.failures == old(metrics.failures)
          invariant items == old(items)
        {
          metrics.RecordSuccess();
        }
      } else {
        for i := 0 to |items|
          invariant metrics.failures == old(metrics.failures) + i && metrics.successes == old(metrics.successes)
          invariant items == old(items)
        {
          metrics.RecordFailure();
        }
      }
      items := [];
    }

    method Add(item: Item, outcome: Outcome) returns (submission: Option<Submission>, threw: bool)
      requires Valid()
      modifies this, metrics
      ensures Valid() && calls == old(calls) + [Call.Add(item, outcome)]
      ensures Submitted(old(calls), calls, submission)
      ensures threw == ThrowsOnAdd(batchSize, calls, |calls| - 1)
    {
      ghost var before := Run(batchSize, calls);
      ghost var fuller := before.(pending := before.pending + [item]);
      OneCallMore(batchSize, calls, Call.Add(item, outcome));
      calls := calls + [Call.Add(item, outcome)];
      assert before.submitted + [] == before.submitted;
      items := items + [item];
      submission, threw := None, false;
      if |items| >= batchSize {
        FlushedCounts(fuller, outcome);
        submission, threw := FlushLocked(outcome);
      }
    }

    method Flush(outcome: Outcome) returns (submission: Option<Submission>, threw: bool)
      requires Valid()
      modifies this, metrics
      ensures Valid() && calls == old(calls) + [Call.Flush(outcome)]
      ensures Submitted(old(calls), calls, submission)
      ensures threw == (old(items) != [] && outcome == Thrown)
    {
      ghost var before := Run(batchSize, calls);
      OneCallMore(batchSize, calls, Call.Flush(outcome));
      calls := calls + [Call.Flush(outcome)];
      assert before.submitted + [] == before.submitted;
      FlushedCounts(before, outcome);
      submission, threw := FlushLocked(outcome);
    }

    /** The call added exactly this submission to the run's. */
    ghost predicate Submitted(before: seq<Call>, after: seq<Call>, submission: Option<Submission>) {
      Run(batchSize, after).submitted
      == Run(batchSize, before).submitted + if submission.Some? then [submission.value] else []
    }

    /** Items pending: with the counters exactly the items added, and below the batch size unless an add has thrown. */
    method Pending() returns (n: nat)
      requires Valid()
      ensures n < EffectiveSize(batchSize) || exists i :: ThrowsOnAdd(batchSize, calls, i)
      ensures (metrics.successes - base.0) + (metrics.failures - base.1) + n == |Added(calls)|
    {
      RunConserves(batchSize, calls);
      BoundedUnlessAddThrows(batchSize, calls);
      assert calls[..|calls|] == calls;
      n := |items|;
    }
  }

  lemma OneCallMore(size: nat, calls: seq<Call>, call: Call)
    ensures Run(size, calls + [call]) == Step(size, Run(size, calls), call)
    ensures ThrowsOnAdd(size, calls + [call], |calls|)
       <==> call.Add? && call.outcome == Thrown && |Run(size, calls).pending| + 1 >= size
  {
    assert (calls + [call])[..|calls|] == calls;
  }

  lemma FlushedCounts(s: State, outcome: Outcome)
    ensures var t := Flushed(s, outcome);
      && Counted(t.submitted, true) == Counted(s.submitted, true) + (if outcome == Taken then |s.pending| else 0)
      && Counted(t.submitted, false) == Counted(s.submitted, false) + (if outcome == Refused then |s.pending| else 0)
  {
    if s.pending != [] && outcome != Thrown {
      assert Flushed(s, outcome).submitted[..|s.submitted|] == s.submitted;
    }
  }
}
