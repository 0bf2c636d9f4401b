/**
 The background index of `internal/server/audit.go`: writers that count an event
 as pending and hand it to a bounded queue, the worker that inserts batches, and
 the ready flag and pending counter that queries look at.  Every step below is one
 atomic action of one goroutine, so a run is an interleaving.
 */
module AuditIndex {

  const QUEUE_CAPACITY := 512
  const BATCH_SIZE := 64

  /** Where the worker stands: waiting, past a failed insert, or past the insert. */
  datatype Worker = Idle | FlushFailed | Flushed

  /** A writer at a program point carries nothing but its event, so the writers at one
      program point are a multiset of events. */
  datatype State<E> = State(
    ready: bool,
    pending: int,
    queue: seq<E>,
    batch: seq<E>,
    worker: Worker,
    logged: multiset<E>,     // appended to the file, not yet counted
    counted: multiset<E>,    // past `indexPending.Add(1)`
    saturated: multiset<E>,  // found the queue full
    failed: multiset<E>,     // own insert failed, flag not yet cleared
    settled: multiset<E>,    // past the own insert, still counted
    returned: multiset<E>,   // `Write` has returned
    index: multiset<E>)

  datatype Step<E> =
    | Log(e: E)
    | Count(e: E)
    | Enqueue(e: E)
    | FindFull(e: E)
    | InsertOne(e: E, ok: bool)
    | ClearFlag(e: E)
    | Uncount(e: E)
    | Receive
    | InsertBatch(ok: bool)
    | WorkerClearFlag
    | FinishFlush
    | QueryFails

  ghost predicate Enabled<E>(s: State<E>, step: Step<E>) {
    match step
    case Log(_) => true
    case Count(e) => e in s.logged
    case Enqueue(e) => e in s.counted && |s.queue| < QUEUE_CAPACITY
    case FindFull(e) => e in s.counted && |s.queue| >= QUEUE_CAPACITY
    case InsertOne(e, _) => e in s.saturated
    case ClearFlag(e) => e in s.failed
    case Uncount(e) => e in s.settled
    case Receive => s.worker == Idle && s.queue != [] && |s.batch| < BATCH_SIZE
    case InsertBatch(_) => s.worker == Idle && s.batch != []
    case WorkerClearFlag => s.worker == FlushFailed
    case FinishFlush => s.worker == Flushed
    case QueryFails => true
  }

  ghost function Next<E>(s: State<E>, step: Step<E>): State<E>
    requires Enabled(s, step)
  {
    match step
    case Log(e) => s.(logged := s.logged + multiset{e})
    case Count(e) =>
      s.(logged := s.logged - multiset{e}, counted := s.counted + multiset{e}, pending := s.pending + 1)
    case Enqueue(e) =>
      s.(counted := s.counted - multiset{e}, queue := s.queue + [e], returned := s.returned + multiset{e})
    case FindFull(e) =>
      s.(counted := s.counted - multiset{e}, saturated := s.saturated + multiset{e})
    case InsertOne(e, ok) =>
      if ok then
        s.(saturated := s.saturated - multiset{e}, settled := s.settled + multiset{e}, index := s.index + multiset{e})
      else
        s.(saturated := s.saturated - multiset{e}, failed := s.failed + multiset{e})
    case ClearFlag(e) =>
      s.(failed := s.failed - multiset{e}, settled := s.settled + multiset{e}, ready := false)
    case Uncount(e) =>
      s.(settled := s.settled - multiset{e}, returned := s.returned + multiset{e}, pending := s.pending - 1)
    case Receive => s.(queue := s.queue[1..], batch := s.batch + [s.queue[0]])
    case InsertBatch(ok) =>
      if ok then s.(worker := Flushed, index := s.index + multiset(s.batch)) else s.(worker := FlushFailed)
    case WorkerClearFlag => s.(worker := Flushed, ready := false)
    case FinishFlush => s.(worker := Idle, batch := [], pending := s.pending - |s.batch|)
    case QueryFails => s.(ready := false)
  }

  ghost predicate IsRun<E>(s: State<E>, steps: seq<Step<E>>)
    decreases |steps|, 0
  {
    steps == [] || (var n := |steps| - 1; IsRun(s, steps[..n]) && Enabled(After(s, steps[..n]), steps[n]))
  }

  ghost function After<E>(s: State<E>, steps: seq<Step<E>>): State<E>
    requires IsRun(s, steps)
    decreases |steps|, 1
  {
    if steps == [] then s else var n := |steps| - 1; Next(After(s, steps[..n]), steps[n])
  }

  /** A log just opened: the index holds what an earlier run left in it. */
  ghost function Opened<E>(index: multiset<E>): State<E> {
    State(true, 0, [], [], Idle, multiset{}, multiset{}, multiset{}, multiset{}, multiset{}, multiset{}, index)
  }

  // ----- The invariant -----

  /** How often `e` is past its increment. */
  ghost function Entered<E>(s: State<E>, e: E): nat {
    s.counted[e] + s.saturated[e] + s.failed[e] + s.settled[e] + s.returned[e]
  }

  /** How often `e` is past its increment and not yet past an insert. */
  ghost function Awaiting<E>(s: State<E>, e: E): nat {
    s.counted[e] + s.saturated[e] + s.failed[e] + multiset(s.queue)[e]
    + (if s.worker == Flushed then 0 else multiset(s.batch)[e])
  }

  /** The number of events past their increment and not yet past their decrement. */
  ghost function InFlight<E>(s: State<E>): nat {
    |s.counted| + |s.saturated| + |s.failed| + |s.settled| + |s.queue| + |s.batch|
  }

  /** No event is indexed more often than it entered, and while the flag is set none is
      indexed less often, but for those that still wait. */
  ghost predicate Accounted<E>(s: State<E>, base: multiset<E>, e: E) {
    && s.index[e] + Awaiting(s, e) <= base[e] + Entered(s, e)
    && (s.ready ==> s.index[e] + Awaiting(s, e) == base[e] + Entered(s, e))
  }

  ghost predicate Inv<E(!new)>(s: State<E>, base: multiset<E>) {
    Counted(s) && forall e :: Accounted(s, base, e)
  }

  ghost predicate WorkerStep<E>(step: Step<E>) {
    step.Receive? || step.InsertBatch? || step.WorkerClearFlag? || step.FinishFlush?
  }

  ghost predicate Counted<E>(s: State<E>) {
    s.pending == InFlight(s) && |s.queue| <= QUEUE_CAPACITY && |s.batch| <= BATCH_SIZE
  }

  lemma WriterStepCounts<E>(s: State<E>, step: Step<E>)
    requires Enabled(s, step) && Counted(s) && !WorkerStep(step)
    ensures Counted(Next(s, step))
  {
  }

  lemma WorkerStepCounts<E>(s: State<E>, step: Step<E>)
    requires Enabled(s, step) && Counted(s) && WorkerStep(step)
    ensures Counted(Next(s, step))
  {
  }

  lemma WriterStepAccounts<E>(s: State<E>, step: Step<E>, base: multiset<E>, e: E)
    requires Enabled(s, step) && Accounted(s, base, e) && !WorkerStep(step)
    ensures Accounted(Next(s, step), base, e)
  {
  }

  lemma FlushStepAccounts<E>(s: State<E>, step: Step<E>, base: multiset<E>, e: E)
    requires Enabled(s, step) && Accounted(s, base, e) && WorkerStep(step) && !step.Receive?
    ensures Accounted(Next(s, step), base, e)
  {
  }

  lemma WorkerStepAccounts<E>(s: State<E>, step: Step<E>, base: multiset<E>, e: E)
    requires Enabled(s, step) && Accounted(s, base, e) && WorkerStep(step)
    ensures Accounted(Next(s, step), base, e)
  {
    if step.Receive? {
      ReceiveKeeps(s, e);
    } else {
      FlushStepAccounts(s, step, base, e);
    }
  }

  /** Receiving moves an event from the queue to the batch. */
  lemma ReceiveKeeps<E>(s: State<E>, e: E)
    requires Enabled(s, Receive)
    ensures Awaiting(Next(s, Receive), e) == Awaiting(s, e) && Untried(Next(s, Receive), e) == Untried(s, e)
  {
    assert s.queue == [s.queue[0]] + s.queue[1..];
  }

  lemma StepKeepsInv<E(!new)>(s: State<E>, step: Step<E>, base: multiset<E>)
    requires Inv(s, base) && Enabled(s, step)
    ensures Inv(Next(s, step), base)
    ensures Next(s, step).ready ==> s.ready
  {
    if WorkerStep(step) {
      WorkerStepCounts(s, step);
      forall e
        ensures Accounted(Next(s, step), base, e)
      {
        WorkerStepAccounts(s, step, base, e);
      }
    } else {
      WriterStepCounts(s, step);
      forall e
        ensures Accounted(Next(s, step), base, e)
      {
        WriterStepAccounts(s, step, base, e);
      }
    }
  }

  lemma {:induction false} RunKeepsInv<E(!new)>(s: State<E>, steps: seq<Step<E>>, base: multiset<E>)
    requires Inv(s, base) && IsRun(s, steps)
    ensures Inv(After(s, steps), base)
    ensures After(s, steps).ready ==> s.ready
    decreases |steps|
  {
    if steps != [] {
      var n := |steps| - 1;
      RunKeepsInv(s, steps[..n], base);
      StepKeepsInv(After(s, steps[..n]), steps[n], base);
    }
  }

  /** A state that is ready with nothing pending has exactly the returned writes in its index. */
  lemma ReadyMeansComplete<E(!new)>(s: State<E>, base: multiset<E>)
    requires Inv(s, base) && s.ready && s.pending == 0
    ensures s.index == base + s.returned
  {
    forall e
      ensures s.index[e] == base[e] + s.returned[e]
    {
      assert Accounted(s, base, e);
      assert s.counted[e] == s.saturated[e] == s.failed[e] == s.settled[e] == 0;
    }
  }

  /** In every interleaving the counter is the number of events in flight, nothing is
      indexed twice, and a state that is ready with nothing pending has exactly the
      returned writes in its index. */
  lemma IndexIsComplete<E(!new)>(base: multiset<E>, steps: seq<Step<E>>)
    requires IsRun(Opened(base), steps)
    ensures var s := After(Opened(base), steps);
            && s.pending == InFlight(s)
            && (forall e :: s.index[e] <= base[e] + Entered(s, e))
            && (s.ready && s.pending == 0 ==> s.index == base + s.returned)
  {
    RunKeepsInv(Opened(base), steps, base);
    var s := After(Opened(base), steps);
    forall e
      ensures s.index[e] <= base[e] + Entered(s, e)
    {
      assert Accounted(s, base, e);
    }
    if s.ready && s.pending == 0 {
      ReadyMeansComplete(s, base);
    }
  }

  // ----- What an index with nothing pending lacks -----

  /** An insert failed. */
  ghost predicate Fails<E>(step: Step<E>) {
    (step.InsertOne? || step.InsertBatch?) && !step.ok
  }

  ghost predicate NoneFails<E>(steps: seq<Step<E>>) {
    forall i :: 0 <= i < |steps| ==> !Fails(steps[i])
  }

  /** The events that a step fails to insert. */
  ghost function Dropped<E>(s: State<E>, step: Step<E>): multiset<E> {
    match step
    case InsertOne(e, false) => multiset{e}
    case InsertBatch(false) => multiset(s.batch)
    case _ => multiset{}
  }

  /** The events that a run fails to insert. */
  ghost function Lost<E>(s: State<E>, steps: seq<Step<E>>): multiset<E>
    requires IsRun(s, steps)
    decreases |steps|
  {
    if steps == [] then multiset{}
    else var n := |steps| - 1; Lost(s, steps[..n]) + Dropped(After(s, steps[..n]), steps[n])
  }

  /** How often `e` is past its increment and not yet past an insert or the failure of one. */
  ghost function Untried<E>(s: State<E>, e: E): nat {
    s.counted[e] + s.saturated[e] + multiset(s.queue)[e] + (if s.worker == Idle then multiset(s.batch)[e] else 0)
  }

  /** Every event past its increment is indexed, lost or still to be inserted. */
  ghost predicate Balanced<E>(s: State<E>, base: multiset<E>, lost: multiset<E>, e: E) {
    s.index[e] + Untried(s, e) + lost[e] == base[e] + Entered(s, e)
  }

  lemma WriterStepBalances<E>(s: State<E>, step: Step<E>, base: multiset<E>, lost: multiset<E>, e: E)
    requires Enabled(s, step) && Balanced(s, base, lost, e) && !WorkerStep(step)
    ensures Balanced(Next(s, step), base, lost + Dropped(s, step), e)
  {
  }

  lemma WorkerStepBalances<E>(s: State<E>, step: Step<E>, base: multiset<E>, lost: multiset<E>, e: E)
    requires Enabled(s, step) && Balanced(s, base, lost, e) && WorkerStep(step)
    ensures Balanced(Next(s, step), base, lost + Dropped(s, step), e)
  {
    if step.Receive? {
      ReceiveKeeps(s, e);
    }
  }

  lemma {:induction false} RunBalances<E>(base: multiset<E>, steps: seq<Step<E>>, e: E)
    requires IsRun(Opened(base), steps)
    ensures Balanced(After(Opened(base), steps), base, Lost(Opened(base), steps), e)
    decreases |steps|
  {
    if steps != [] {
      var n := |steps| - 1;
      RunBalances(base, steps[..n], e);
      var s := After(Opened(base), steps[..n]);
      if WorkerStep(steps[n]) {
        WorkerStepBalances(s, steps[n], base, Lost(Opened(base), steps[..n]), e);
      } else {
        WriterStepBalances(s, steps[n], base, Lost(Opened(base), steps[..n]), e);
      }
    }
  }

  lemma {:induction false} NothingLostIff<E>(s: State<E>, steps: seq<Step<E>>)
    requires IsRun(s, steps)
    ensures Lost(s, steps) == multiset{} <==> NoneFails(steps)
    decreases |steps|
  {
    if steps != [] {
      var n := |steps| - 1;
      NothingLostIff(s, steps[..n]);
      DroppedIffFails(After(s, steps[..n]), steps[n]);
      BothEmpty(Lost(s, steps[..n]), Dropped(After(s, steps[..n]), steps[n]));
      LastFails(steps);
    }
  }

  lemma DroppedIffFails<E>(s: State<E>, step: Step<E>)
    requires Enabled(s, step)
    ensures Dropped(s, step) == multiset{} <==> !Fails(step)
  {
    if step.InsertBatch? {
      assert s.batch[0] in multiset(s.batch);
    }
  }

  lemma BothEmpty<T>(a: multiset<T>, b: multiset<T>)
    ensures a + b == multiset{} <==> a == multiset{} && b == multiset{}
  {
    assert |a + b| == |a| + |b|;
  }

  lemma LastFails<E>(steps: seq<Step<E>>)
    requires steps != []
    ensures NoneFails(steps) <==> NoneFails(steps[..|steps| - 1]) && !Fails(steps[|steps| - 1])
  {
  }

  /** With nothing pending, the index is complete if and only if no insert has ever failed:
      nothing makes up for an event that was lost. */
  lemma CompleteIffNoneFails<E(!new)>(base: multiset<E>, steps: seq<Step<E>>)
    requires IsRun(Opened(base), steps) && After(Opened(base), steps).pending == 0
    ensures var s := After(Opened(base), steps);
            && s.index + Lost(Opened(base), steps) == base + s.returned
            && (s.index == base + s.returned <==> NoneFails(steps))
            && (s.ready ==> NoneFails(steps))
  {
    RunKeepsInv(Opened(base), steps, base);
    var s, lost := After(Opened(base), steps), Lost(Opened(base), steps);
    forall e
      ensures s.index[e] + lost[e] == base[e] + s.returned[e]
    {
      RunBalances(base, steps, e);
      assert s.counted[e] == s.saturated[e] == s.failed[e] == s.settled[e] == 0;
    }
    assert s.index + lost == base + s.returned;
    assert |s.index + lost| == |s.index| + |lost|;
    NothingLostIff(Opened(base), steps);
    if s.ready {
      ReadyMeansComplete(s, base);
    }
  }

  // ----- Loading flag and counter one after the other -----

  /** A run began with the run of its first steps, and the flag was set there if it still is. */
  lemma {:induction false} RunPrefix<E>(s: State<E>, steps: seq<Step<E>>, k: nat)
    requires IsRun(s, steps) && k <= |steps|
    ensures IsRun(s, steps[..k])
    ensures After(s, steps).ready ==> After(s, steps[..k]).ready
    decreases |steps|
  {
    if k == |steps| {
      assert steps[..k] == steps;
    } else {
      var n := |steps| - 1;
      RunPrefix(s, steps[..n], k);
      assert steps[..n][..k] == steps[..k];
      FlagStays(After(s, steps[..n]), steps[n]);
    }
  }

  lemma FlagStays<E>(s: State<E>, step: Step<E>)
    requires Enabled(s, step)
    ensures Next(s, step).ready ==> s.ready
  {
  }

  /** `Query` loads the flag after `k` steps of a run and the counter at its end.  If both loads
      pass, the index is complete if and only if no insert has failed before the second.  Had
      the flag been loaded last, passing would mean that none has. */
  lemma TwoLoadsIff<E(!new)>(base: multiset<E>, steps: seq<Step<E>>, k: nat)
    requires IsRun(Opened(base), steps) && k <= |steps|
    ensures IsRun(Opened(base), steps[..k])
    ensures var s, t := After(Opened(base), steps[..k]), After(Opened(base), steps);
            && (t.ready ==> s.ready)
            && (s.ready && t.pending == 0 ==> (t.index == base + t.returned <==> NoneFails(steps)))
            && (t.ready && t.pending == 0 ==> NoneFails(steps))
  {
    RunPrefix(Opened(base), steps, k);
    if After(Opened(base), steps).pending == 0 {
      CompleteIffNoneFails(base, steps);
    }
  }

  // ----- A run in which both loads pass and an event is missing -----

  /** One event is logged, counted, queued and received; its insert fails, which clears the
      flag, and it is taken off the counter. */
  ghost function LossOf<E>(e: E): seq<Step<E>> {
    [Log(e), Count(e), Enqueue(e), Receive, InsertBatch(false), WorkerClearFlag, FinishFlush]
  }

  /** The state after `k` steps of it. */
  ghost function Stage<E>(e: E, k: nat): State<E> {
    var s := Opened<E>(multiset{});
    var behind := s.(returned := multiset{e}, pending := 1);
    if k == 0 then s
    else if k == 1 then s.(logged := multiset{e})
    else if k == 2 then s.(counted := multiset{e}, pending := 1)
    else if k == 3 then behind.(queue := [e])
    else if k == 4 then behind.(batch := [e])
    else if k == 5 then behind.(batch := [e], worker := FlushFailed)
    else if k == 6 then behind.(batch := [e], worker := Flushed, ready := false)
    else s.(returned := multiset{e}, ready := false)
  }

  lemma StageStep<E>(e: E, k: nat)
    requires k < 7
    ensures Enabled(Stage(e, k), LossOf(e)[k]) && Next(Stage(e, k), LossOf(e)[k]) == Stage(e, k + 1)
  {
    assert k == 0 || k == 1 || k == 2 || k == 3 || k == 4 || k == 5 || k == 6;
  }

  lemma {:induction false} StageReached<E>(e: E, k: nat)
    requires k <= 7
    ensures var steps := LossOf(e)[..k];
            IsRun(Opened(multiset{}), steps) && After(Opened(multiset{}), steps) == Stage(e, k)
  {
    if k > 0 {
      StageReached(e, k - 1);
      StageStep(e, k - 1);
      LossPrefix(e, k);
    }
  }

  lemma LossPrefix<E>(e: E, k: nat)
    requires 0 < k <= 7
    ensures |LossOf(e)[..k]| == k && LossOf(e)[..k][..k - 1] == LossOf(e)[..k - 1]
            && LossOf(e)[..k][k - 1] == LossOf(e)[k - 1]
  {
  }

  lemma LossEnds<E>(e: E)
    ensures |LossOf(e)| == 7 && LossOf(e)[..7] == LossOf(e)
    ensures Stage(e, 4).ready && Stage(e, 7).pending == 0 && e in Stage(e, 7).returned && e !in Stage(e, 7).index
  {
  }

  /** The flag is loaded after four steps and the counter after all seven. */
  lemma TwoLoadsCanMiss<E>(e: E) returns (steps: seq<Step<E>>, k: nat)
    ensures k <= |steps| && IsRun(Opened(multiset{}), steps) && IsRun(Opened(multiset{}), steps[..k])
    ensures var s, t := After(Opened(multiset{}), steps[..k]), After(Opened(multiset{}), steps);
            s.ready && t.pending == 0 && e in t.returned && e !in t.index
  {
    steps, k := LossOf(e), 4;
    StageReached(e, 4);
    StageReached(e, 7);
    LossEnds(e);
  }
}
