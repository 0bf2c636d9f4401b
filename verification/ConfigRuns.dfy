/**
 The configuration in use and its file, over runs of the requests that replace them.  Every
 one does both under one lock, but for the import of a backup (`internal/server/backup.go`):
 it saves without the lock, which it takes only to assign.  So these are two steps.
 */
module ConfigRuns {
  import opened Prelude
  import SecondFactor
  import Text

  datatype State<C> = State(live: C, file: C) {
    /** What is in use is what a restart would read. */
    ghost predicate InStep()
    {
      live == file
    }
  }

  datatype Step<!C> =
    | Transact(change: C -> Option<C>, saves: bool) // from clone to assignment under the lock
    | ImportSave(c: C, saves: bool)
    | ImportAssign(c: C)

  /** What a step writes to the file, if anything. */
  function Written<C>(s: State<C>, step: Step<C>): Option<C> {
    match step
    case Transact(change, saves) => if saves then change(s.live) else None
    case ImportSave(c, saves) => if saves then Some(c) else None
    case ImportAssign(_) => None
  }

  function Next<C>(s: State<C>, step: Step<C>): State<C> {
    match step
    case Transact(_, _) => (match Written(s, step) case Some(c) => State(c, c) case None => s)
    case ImportSave(_, _) => (match Written(s, step) case Some(c) => s.(file := c) case None => s)
    case ImportAssign(c) => s.(live := c)
  }

  function Run<C>(s: State<C>, steps: seq<Step<C>>): State<C>
    decreases |steps|
  {
    if steps == [] then s else Run(Next(s, steps[0]), steps[1..])
  }

  /** The last configuration that a run writes to the file, if any. */
  ghost function LastWritten<C>(s: State<C>, steps: seq<Step<C>>): Option<C>
    decreases |steps|
  {
    if steps == [] then None
    else
      var later := LastWritten(Next(s, steps[0]), steps[1..]);
      if later.Some? then later else Written(s, steps[0])
  }

  /** No step of a run writes to the file. */
  ghost predicate NoneWrites<C>(s: State<C>, steps: seq<Step<C>>)
    decreases |steps|
  {
    steps == [] || (Written(s, steps[0]).None? && NoneWrites(Next(s, steps[0]), steps[1..]))
  }

  /** An import of `c`, with the steps of others between its own two. */
  function ImportRun<C>(s: State<C>, c: C, between: seq<Step<C>>): State<C> {
    Next(Run(Next(s, ImportSave(c, true)), between), ImportAssign(c))
  }

  lemma {:induction false} FileAfter<C>(s: State<C>, steps: seq<Step<C>>)
    ensures Run(s, steps).file == (match LastWritten(s, steps) case Some(c) => c case None => s.file)
    ensures LastWritten(s, steps).None? <==> NoneWrites(s, steps)
    decreases |steps|
  {
    if steps != [] {
      FileAfter(Next(s, steps[0]), steps[1..]);
    }
  }

  /** The steps of a run never write `c`. */
  ghost predicate NeverWrites<C(!new)>(steps: seq<Step<C>>, c: C) {
    forall step <- steps ::
      && (step.Transact? ==> forall live :: step.change(live) != Some(c))
      && (step.ImportSave? ==> step.c != c)
  }

  lemma {:induction false} NotWritten<C(!new)>(s: State<C>, steps: seq<Step<C>>, c: C)
    requires NeverWrites(steps, c)
    ensures LastWritten(s, steps) != Some(c)
    decreases |steps|
  {
    if steps != [] {
      NotWritten(Next(s, steps[0]), steps[1..], c);
      assert steps[0] in steps;
    }
  }

  /** After an import, in any run, the file is what is in use if and only if nobody else wrote
      the file between its two steps, or the last one who did wrote the very same. */
  lemma ImportInStepIff<C(!new)>(s: State<C>, c: C, between: seq<Step<C>>)
    ensures var mid := Next(s, ImportSave(c, true));
            && ImportRun(s, c, between).live == c
            && (ImportRun(s, c, between).InStep() <==> NoneWrites(mid, between) || LastWritten(mid, between) == Some(c))
            && (NeverWrites(between, c) ==> (ImportRun(s, c, between).InStep() <==> NoneWrites(mid, between)))
  {
    var mid := Next(s, ImportSave(c, true));
    FileAfter(mid, between);
    if NeverWrites(between, c) {
      NotWritten(mid, between, c);
    }
  }

  /** One transaction between the two steps is enough: it is in the file, and the import in use. */
  lemma ImportCanDiverge<C>(was: C, restored: C, change: C -> Option<C>)
    requires change(was).Some? && change(was).value != restored
    ensures var s := ImportRun(State(was, was), restored, [Transact(change, true)]);
            s == State(restored, change(was).value) && !s.InStep()
  {
    var mid := State(was, restored);
    assert Run(mid, [Transact(change, true)]) == Run(Next(mid, Transact(change, true)), []);
  }

  /** Transactions alone stay in step, and the next one that saves mends an import that is not. */
  lemma {:induction false} TransactionsMend<C>(s: State<C>, steps: seq<Step<C>>)
    requires forall step <- steps :: step.Transact?
    ensures Run(s, steps).InStep() <==> s.InStep() || !NoneWrites(s, steps)
    decreases |steps|
  {
    if steps != [] {
      var next := Next(s, steps[0]);
      assert steps[0] in steps;
      TransactionsMend(next, steps[1..]);
    }
  }

  /** A login with a recovery code, as a transaction. */
  ghost function Login(crypto: SecondFactor.Crypto, code: string, now: int)
    : SecondFactor.Contents -> Option<SecondFactor.Contents>
  {
    (c: SecondFactor.Contents) =>
      var spent := SecondFactor.Outcome(crypto, c, SecondFactor.Verify(code, now, true, true)).0;
      if spent == c then None else Some(spent)
  }

  /** If someone logs in with a recovery code between the two steps, the old configuration
      without that code is in the file, and the imported one is in use until it is saved. */
  lemma LoginDuringImport(crypto: SecondFactor.Crypto, was: SecondFactor.Contents, restored: SecondFactor.Contents,
                          code: string, now: int)
    requires SecondFactor.FactorOf(crypto, was, Text.TrimSpace(code), now).Recovery?
    ensures var spent := SecondFactor.Spent(was, SecondFactor.FactorOf(crypto, was, Text.TrimSpace(code), now));
            var s := ImportRun(State(was, was), restored, [Transact(Login(crypto, code, now), true)]);
            && s == State(restored, spent) && |spent.hashes| == |was.hashes| - 1
            && (!s.InStep() <==> restored != spent)
  {
    var change := Login(crypto, code, now);
    var spent := SecondFactor.Spent(was, SecondFactor.FactorOf(crypto, was, Text.TrimSpace(code), now));
    assert |spent.hashes| != |was.hashes|;
    assert change(was) == Some(spent);
    var mid := State(was, restored);
    assert Run(mid, [Transact(change, true)]) == Run(Next(mid, Transact(change, true)), []);
  }
}
