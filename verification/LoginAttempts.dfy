/**
 One key of the login limiter of `internal/auth/ratelimit.go`.  Times are nanoseconds; time 0
 is Go's zero `time.Time`, and a key without an entry behaves like the zero attempt.
 */
module LoginAttempts {

  const WINDOW := 900_000_000_000
  const STALE := 1_800_000_000_000

  type Time = nat

  datatype Attempt = Attempt(count: nat, windowStart: Time, lockedUntil: Time)

  const ZERO := Attempt(0, 0, 0)

  // ----- One key -----

  predicate Allow(a: Attempt, now: Time) {
    now >= a.lockedUntil
  }

  /** The entry after one more failure. */
  function Failed(a: Attempt, now: Time): Attempt {
    var b := if a.windowStart == 0 || now - a.windowStart > WINDOW then Attempt(0, now, 0) else a;
    var c := b.(count := b.count + 1);
    if c.count >= 5 then c.(lockedUntil := now + WINDOW) else c
  }

  /** `pruneLocked` forgets such an entry. */
  ghost predicate Stale(a: Attempt, now: Time) {
    now > a.lockedUntil && a.windowStart != 0 && now - a.windowStart > STALE
  }

  /** What happens to one key: a check, a recorded failure, or pruning at some time. */
  datatype Step = Check(t: Time) | Failure(t: Time) | Age(t: Time)

  ghost function AfterStep(a: Attempt, step: Step): Attempt {
    match step
    case Check(_) => a
    case Failure(t) => Failed(a, t)
    case Age(t) => if Stale(a, t) then ZERO else a
  }

  ghost function Replay(steps: seq<Step>, k: nat): Attempt
    requires k <= |steps|
  {
    if k == 0 then ZERO else AfterStep(Replay(steps, k - 1), steps[k - 1])
  }

  ghost predicate Ordered(steps: seq<Step>) {
    && (forall i :: 0 <= i < |steps| ==> steps[i].t > 0)
    && (forall i, j :: 0 <= i < j < |steps| ==> steps[i].t <= steps[j].t)
  }

  // ----- Locks -----

  /** Only the fifth failure of a window or a later one locks. */
  ghost predicate LockShape(a: Attempt) {
    a.lockedUntil > 0 ==> a.count >= 5 && a.windowStart > 0
  }

  lemma {:induction false} ReplayLockShape(steps: seq<Step>, k: nat)
    requires Ordered(steps) && k <= |steps|
    ensures LockShape(Replay(steps, k))
  {
    if k > 0 {
      ReplayLockShape(steps, k - 1);
    }
  }

  /** A locked key is refused until its lock ends, as long as no failure is recorded for it. */
  lemma {:induction false} LockHolds(steps: seq<Step>, k: nat, m: nat)
    requires Ordered(steps) && k <= m <= |steps|
    requires forall i :: k <= i < m ==> !steps[i].Failure? && steps[i].t < Replay(steps, k).lockedUntil
    ensures Replay(steps, m) == Replay(steps, k)
    ensures forall t: Time :: t < Replay(steps, k).lockedUntil ==> !Allow(Replay(steps, m), t)
  {
    if k < m {
      LockHolds(steps, k, m - 1);
    }
  }

  /** In every run, a failure recorded during a lock, by a login that was checked before the
      lock began, extends the lock exactly if it still falls into the window; otherwise it ends
      it. */
  lemma FailureKeepsLockIff(steps: seq<Step>, k: nat)
    requires Ordered(steps) && k < |steps| && steps[k].Failure? && steps[k].t < Replay(steps, k).lockedUntil
    ensures var a, b, now := Replay(steps, k), Replay(steps, k + 1), steps[k].t;
            && (!Allow(b, now) <==> now - a.windowStart <= WINDOW)
            && (now - a.windowStart <= WINDOW ==> b == Attempt(a.count + 1, a.windowStart, now + WINDOW))
            && (now - a.windowStart > WINDOW ==> b == Attempt(1, now, 0))
  {
    ReplayLockShape(steps, k);
  }

  /** Four failed logins, and two that were checked before the fifth failure was recorded. */
  ghost function Overlapping(): seq<Step> {
    [Check(1), Failure(1), Check(1), Failure(1), Check(1), Failure(1), Check(1), Failure(1),
     Check(WINDOW), Check(WINDOW), Failure(WINDOW), Failure(WINDOW + 2)]
  }

  /** So a lock can end early.  Every login is allowed by its check; the fifth failure locks the
      key until twice the window, and the sixth, just after the window, unlocks it. */
  lemma FailureCanEndLock()
    ensures var steps := Overlapping();
            && |steps| == 12 && Ordered(steps)
            && (forall i :: 0 <= i < 12 && steps[i].Check? ==> Allow(Replay(steps, i), steps[i].t))
            && steps[9] == Check(WINDOW) && !Allow(Replay(steps, 11), WINDOW + 2)
            && Replay(steps, 11).lockedUntil == 2 * WINDOW && Allow(Replay(steps, 12), WINDOW + 2)
  {
    var steps := Overlapping();
    assert Replay(steps, 0) == ZERO;
    assert Replay(steps, 2) == Replay(steps, 3) == Attempt(1, 1, 0);
    assert Replay(steps, 4) == Replay(steps, 5) == Attempt(2, 1, 0);
    assert Replay(steps, 6) == Replay(steps, 7) == Attempt(3, 1, 0);
    assert Replay(steps, 8) == Replay(steps, 9) == Replay(steps, 10) == Attempt(4, 1, 0);
    assert Replay(steps, 11) == Attempt(5, 1, 2 * WINDOW);
  }
}
