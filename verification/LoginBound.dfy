/**
 How many failures of one key the login limiter lets through.  The check of a login and its
 failure are separate calls (`login` of `internal/server/server.go`), so logins overlap, and the
 bound depends on how many do at once.
 */
module LoginBound {
  import opened LoginAttempts

  /** Every failure belongs to a login that was let in by the check `check(i)`, a step before
      it, or by one before the run began, for which -1 stands. */
  ghost predicate Checked(steps: seq<Step>, check: nat -> int) {
    && Ordered(steps)
    && forall i: nat :: i < |steps| && steps[i].Failure? ==>
         && -1 <= check(i) < i
         && (check(i) >= 0 ==> steps[check(i)].Check? && Allow(Replay(steps, check(i)), steps[check(i)].t))
  }

  /** The failures from step `k` on whose login was let in before it. */
  ghost function InFlight(steps: seq<Step>, check: nat -> int, k: nat): set<nat> {
    set i: nat | i < |steps| && k <= i && steps[i].Failure? && check(i) < k
  }

  /** At no time are more than `c` logins in flight that will fail. */
  ghost predicate Overlap(steps: seq<Step>, check: nat -> int, c: nat) {
    c >= 1 && forall k :: 0 <= k <= |steps| ==> |InFlight(steps, check, k)| <= c
  }

  /** The failures in the half-open interval of the length of a window that begins at `from`. */
  ghost function FailuresIn(steps: seq<Step>, from: Time): set<nat> {
    set i: nat | i < |steps| && steps[i].Failure? && from <= steps[i].t < from + WINDOW
  }

  // ----- Counting -----

  lemma {:induction false} SubsetCard(s: set<nat>, t: set<nat>)
    requires s <= t
    ensures |s| <= |t|
  {
    if s != {} {
      var x :| x in s;
      SubsetCard(s - {x}, t - {x});
    }
  }

  lemma {:induction false} Least(s: set<nat>) returns (m: nat)
    requires s != {}
    ensures m in s && forall i :: i in s ==> m <= i
    decreases |s|
  {
    m :| m in s;
    if s != {m} {
      var r := Least(s - {m});
      assert forall i :: i in s ==> i == m || i in s - {m};
      if r < m {
        m := r;
      }
    }
  }

  /** The `m` numbers from `n` on. */
  ghost function Run(n: nat, m: nat): (s: set<nat>)
    ensures |s| == m && forall i: nat :: i in s <==> n <= i < n + m
  {
    if m == 0 then {} else Run(n, m - 1) + {n + m - 1}
  }

  lemma Union(s: set<nat>, t: set<nat>)
    ensures |s + t| <= |s| + |t|
    ensures s !! t ==> |s + t| == |s| + |t|
  {
    assert |s + t| + |s * t| == |s| + |t|;
  }

  lemma TwoParts(s: set<nat>, t: set<nat>, u: set<nat>)
    requires forall i :: i in s ==> i in t || i in u
    ensures |s| <= |t| + |u|
  {
    SubsetCard(s, t + u);
    Union(t, u);
  }

  // ----- Windows -----

  /** The failure starts a new window. */
  ghost predicate Restarts(steps: seq<Step>, i: nat)
    requires i < |steps|
  {
    && steps[i].Failure?
    && (Replay(steps, i).windowStart == 0 || steps[i].t - Replay(steps, i).windowStart > WINDOW)
  }

  /** The count that the failure leaves behind. */
  ghost function CountAt(steps: seq<Step>, i: nat): nat
    requires i < |steps|
  {
    Replay(steps, i + 1).count
  }

  /** No failure among the steps starts a new window. */
  ghost predicate Quiet(steps: seq<Step>, i: nat, k: nat)
    requires i <= k <= |steps|
  {
    forall j :: i <= j < k ==> !Restarts(steps, j)
  }

  /** Shape of an entry at some time. */
  ghost predicate Shape(a: Attempt, now: Time) {
    if a.windowStart == 0 then a == ZERO
    else a.count >= 1 && a.windowStart <= now && (a.lockedUntil > 0 <==> a.count >= 5)
  }

  lemma {:induction false} ShapeAt(steps: seq<Step>, k: nat)
    requires Ordered(steps) && 0 < k <= |steps|
    ensures Shape(Replay(steps, k), steps[k - 1].t)
  {
    if k > 1 {
      ShapeAt(steps, k - 1);
    }
  }

  /** Within a window the count goes up with each failure. */
  lemma {:induction false} CountGrows(steps: seq<Step>, i: nat, k: nat)
    requires Ordered(steps) && i < k <= |steps| && steps[i].Failure? && Quiet(steps, i + 1, k)
    ensures var a, b := Replay(steps, i + 1), Replay(steps, k);
            b.windowStart == 0 || (b.windowStart == a.windowStart && b.count >= a.count)
    decreases k
  {
    if i + 1 < k {
      CountGrows(steps, i, k - 1);
      assert !Restarts(steps, k - 1);
    }
  }

  lemma CountsDiffer(steps: seq<Step>, i: nat, j: nat)
    requires Ordered(steps) && i < j < |steps| && steps[i].Failure? && steps[j].Failure?
    requires Quiet(steps, i + 1, j + 1)
    ensures CountAt(steps, j) > CountAt(steps, i)
    ensures Replay(steps, j + 1).windowStart == Replay(steps, i + 1).windowStart
  {
    CountGrows(steps, i, j);
    assert !Restarts(steps, j);
  }

  /** A lock of the fifth failure or a later one holds while no new window starts. */
  lemma {:induction false} LockStays(steps: seq<Step>, e: nat, k: nat, end: Time)
    requires Ordered(steps) && e < k <= |steps| && steps[e].Failure? && CountAt(steps, e) >= 5
    requires end <= steps[e].t + WINDOW && Quiet(steps, e + 1, k)
    requires forall j :: e < j < k ==> steps[j].t < end
    ensures Replay(steps, k).lockedUntil >= end && Replay(steps, k).count >= 5
    decreases k
  {
    if e + 1 < k {
      LockStays(steps, e, k - 1, end);
      assert !Restarts(steps, k - 1) && steps[k - 1].t < end && steps[e].t <= steps[k - 1].t;
    } else {
      ShapeAt(steps, k);
    }
  }

  /** What fails during a lock was let in before the failure that brought it about. */
  lemma LetInBeforeLock(steps: seq<Step>, check: nat -> int, e: nat, i: nat, end: Time)
    requires Checked(steps, check) && e <= i < |steps| && steps[e].Failure? && steps[i].Failure?
    requires CountAt(steps, e) >= 5 && end <= steps[e].t + WINDOW && steps[i].t < end
    requires e < i ==> Quiet(steps, e + 1, i)
    ensures check(i) < e
  {
    if check(i) > e {
      LockStays(steps, e, check(i), end);
    }
  }

  /** A first failure in an interval starts the only new window there. */
  lemma {:induction false} OneRestart(steps: seq<Step>, r: nat, k: nat)
    requires Ordered(steps) && r < k <= |steps| && Restarts(steps, r)
    requires forall j :: r < j < k ==> steps[j].t < steps[r].t + WINDOW
    ensures Quiet(steps, r + 1, k) && Replay(steps, k).windowStart == steps[r].t
    decreases k
  {
    if r + 1 < k {
      OneRestart(steps, r, k - 1);
    }
  }

  // ----- The bound -----

  /** Failures of one window, in the interval that begins at `from`. */
  ghost predicate OfOneWindow(steps: seq<Step>, from: Time, s: set<nat>) {
    && s <= FailuresIn(steps, from)
    && forall i, j :: i in s && j in s && i < j ==> Quiet(steps, i + 1, j + 1)
  }

  /** At most four of them do not lock, and fewer if the first are not among them. */
  lemma {:induction false} FewUnlocked(steps: seq<Step>, from: Time, s: set<nat>, m: nat)
    requires Ordered(steps) && OfOneWindow(steps, from, s) && m <= 5
    requires forall i :: i in s ==> m <= CountAt(steps, i) <= 4
    ensures |s| <= 5 - m
    decreases 5 - m
  {
    if s != {} {
      var x := Least(s);
      forall i | i in s - {x}
        ensures CountAt(steps, i) >= m + 1
      {
        CountsDiffer(steps, x, i);
      }
      FewUnlocked(steps, from, s - {x}, m + 1);
    }
  }

  /** Those that lock, and one more that follows them in the interval, were all in flight. */
  lemma LockedInFlight(steps: seq<Step>, check: nat -> int, c: nat, from: Time, s: set<nat>, more: set<nat>)
    requires Checked(steps, check) && Overlap(steps, check, c) && OfOneWindow(steps, from, s)
    requires s != {} && forall i :: i in s ==> CountAt(steps, i) >= 5
    requires more <= FailuresIn(steps, from) && forall i, j :: i in s && j in more ==> i < j && Quiet(steps, i + 1, j)
    ensures |s + more| <= c
  {
    var e := Least(s);
    forall i | i in s + more
      ensures i in InFlight(steps, check, e)
    {
      if i in s && e < i {
        assert Quiet(steps, e + 1, i + 1);
      }
      LetInBeforeLock(steps, check, e, i, from + WINDOW);
    }
    SubsetCard(s + more, InFlight(steps, check, e));
  }

  /** Failures that lock, and failures that do not. */
  ghost function Locking(steps: seq<Step>, s: set<nat>): set<nat>
    requires forall i :: i in s ==> i < |steps|
  {
    set i | i in s && CountAt(steps, i) >= 5
  }

  /** The failures of one window in the interval, whose counts begin at `m`. */
  lemma WindowBound(steps: seq<Step>, check: nat -> int, c: nat, from: Time, s: set<nat>, m: nat, more: set<nat>)
    requires Checked(steps, check) && Overlap(steps, check, c) && OfOneWindow(steps, from, s) && m <= 5
    requires forall i :: i in s ==> CountAt(steps, i) >= m
    requires more <= FailuresIn(steps, from) && forall i, j :: i in s && j in more ==> i < j && Quiet(steps, i + 1, j)
    ensures |s| <= 5 - m || |s| + |more| <= 5 - m + c
  {
    var high := Locking(steps, s);
    var low := s - high;
    FewUnlocked(steps, from, low, m);
    assert s == low + high;
    Union(low, high);
    if high != {} {
      LockedInFlight(steps, check, c, from, high, more);
      assert high !! more;
      Union(high, more);
    }
  }

  lemma WithoutRestart(steps: seq<Step>, check: nat -> int, c: nat, from: Time)
    requires Checked(steps, check) && Overlap(steps, check, c)
    requires forall i :: i in FailuresIn(steps, from) ==> !Restarts(steps, i)
    ensures |FailuresIn(steps, from)| <= c + 4
  {
    var all := FailuresIn(steps, from);
    QuietInterval(steps, from, all, |steps|);
    CountsBegin(steps, all, 1);
    WindowBound(steps, check, c, from, all, 1, {});
  }

  /** Before the failure `r`, the first in the interval that starts a new window. */
  lemma BeforeRestart(steps: seq<Step>, check: nat -> int, c: nat, from: Time, r: nat, s: set<nat>)
    requires Checked(steps, check) && Overlap(steps, check, c) && r in FailuresIn(steps, from)
    requires forall i :: i in FailuresIn(steps, from) && i < r ==> !Restarts(steps, i)
    requires s == set i | i in FailuresIn(steps, from) && i < r
    ensures |s| <= c + 2
  {
    QuietInterval(steps, from, s, r);
    CountsBegin(steps, s, 2);
    WindowBound(steps, check, c, from, s, 2, {r});
  }

  lemma FromRestart(steps: seq<Step>, check: nat -> int, c: nat, from: Time, r: nat, s: set<nat>)
    requires Checked(steps, check) && Overlap(steps, check, c) && r in FailuresIn(steps, from) && Restarts(steps, r)
    requires s == set i | i in FailuresIn(steps, from) && i >= r
    ensures |s| <= c + 4
  {
    NewWindow(steps, from, r, s);
    CountsBegin(steps, s, 1);
    WindowBound(steps, check, c, from, s, 1, {});
  }

  /** If at most `c` logins that will fail are in flight at once, no interval of the length of a
      window holds more than `2 * c + 6` failures: three late ones of a window, those in flight
      when it locks, of which one starts the next window, three more there, and those in flight
      when that locks. */
  lemma AtMost(steps: seq<Step>, check: nat -> int, c: nat, from: Time)
    requires Checked(steps, check) && Overlap(steps, check, c)
    ensures |FailuresIn(steps, from)| <= 2 * c + 6
  {
    var all := FailuresIn(steps, from);
    var r := FirstRestart(steps, all);
    if r == |steps| {
      WithoutRestart(steps, check, c, from);
    } else {
      var before, behind := set i | i in all && i < r, set i | i in all && i >= r;
      BeforeRestart(steps, check, c, from, r, before);
      FromRestart(steps, check, c, from, r, behind);
      TwoParts(all, before, behind);
    }
  }

  /** The first of the failures that starts a new window, or the end. */
  lemma FirstRestart(steps: seq<Step>, s: set<nat>) returns (r: nat)
    requires forall i :: i in s ==> i < |steps|
    ensures r == |steps| || (r in s && Restarts(steps, r))
    ensures forall i :: i in s && i < r ==> !Restarts(steps, i)
  {
    var restarts := set i | i in s && Restarts(steps, i);
    if restarts == {} {
      r := |steps|;
    } else {
      r := Least(restarts);
    }
    assert forall i :: i in s && Restarts(steps, i) ==> i in restarts;
  }

  /** Before the first failure in the interval that starts a new window, none does. */
  lemma QuietInterval(steps: seq<Step>, from: Time, s: set<nat>, r: nat)
    requires Ordered(steps) && r <= |steps| && s <= FailuresIn(steps, from) && forall i :: i in s ==> i < r
    requires forall i :: i in FailuresIn(steps, from) && i < r ==> !Restarts(steps, i)
    ensures OfOneWindow(steps, from, s)
    ensures forall i :: i in s ==> Quiet(steps, i + 1, r) || steps[r - 1].t >= from + WINDOW
  {
    forall i, k: nat | i in s && i < k < r && steps[k].t < from + WINDOW
      ensures !Restarts(steps, k)
    {
      if steps[k].Failure? {
        assert k in FailuresIn(steps, from);
      }
    }
  }

  lemma NewWindow(steps: seq<Step>, from: Time, r: nat, s: set<nat>)
    requires Ordered(steps) && r in FailuresIn(steps, from) && Restarts(steps, r)
    requires s <= FailuresIn(steps, from) && forall i :: i in s ==> r <= i
    ensures OfOneWindow(steps, from, s)
  {
    forall i, j | i in s && j in s && i < j
      ensures Quiet(steps, i + 1, j + 1)
    {
      OneRestart(steps, r, j + 1);
    }
  }

  lemma CountsBegin(steps: seq<Step>, s: set<nat>, m: nat)
    requires Ordered(steps) && m <= 2 && forall i :: i in s ==> i < |steps| && steps[i].Failure?
    requires m == 2 ==> forall i :: i in s ==> !Restarts(steps, i)
    ensures forall i :: i in s ==> CountAt(steps, i) >= m
  {
    forall i | i in s
      ensures CountAt(steps, i) >= m
    {
      if i > 0 {
        ShapeAt(steps, i);
      }
    }
  }

  // ----- Logins one after the other -----

  /** Step `j` is a check that let step `i` through, with no failure in between. */
  ghost predicate Permits(steps: seq<Step>, j: nat, i: nat)
    requires i < |steps|
  {
    && j < i && steps[j].Check? && Allow(Replay(steps, j), steps[j].t)
    && forall k :: j < k < i ==> !steps[k].Failure?
  }

  /** Every failure follows an allowed check, with no other failure in between. */
  ghost predicate Disciplined(steps: seq<Step>) {
    Ordered(steps) && forall i :: 0 <= i < |steps| && steps[i].Failure? ==> exists j: nat :: Permits(steps, j, i)
  }

  /** The check that let a failure of a disciplined run through. */
  ghost function CheckOf(steps: seq<Step>): nat -> int {
    (i: nat) => if i < |steps| && exists j: nat :: Permits(steps, j, i) then
        var j: nat :| Permits(steps, j, i); j
      else -1
  }

  lemma CheckPermits(steps: seq<Step>, i: nat)
    requires Disciplined(steps) && i < |steps| && steps[i].Failure?
    ensures CheckOf(steps)(i) >= 0 && Permits(steps, CheckOf(steps)(i), i)
  {
  }

  lemma OneInFlight(steps: seq<Step>, k: nat)
    requires Disciplined(steps)
    ensures |InFlight(steps, CheckOf(steps), k)| <= 1
  {
    var s := InFlight(steps, CheckOf(steps), k);
    if s != {} {
      var i := Least(s);
      forall j | j in s
        ensures j == i
      {
        CheckPermits(steps, j);
      }
      SubsetCard(s, {i});
    }
  }

  /** A run in which logins do not overlap has one in flight at a time. */
  lemma OneAtATime(steps: seq<Step>)
    requires Disciplined(steps)
    ensures Checked(steps, CheckOf(steps)) && Overlap(steps, CheckOf(steps), 1)
  {
    forall i: nat | i < |steps| && steps[i].Failure?
      ensures CheckOf(steps)(i) >= 0 && Permits(steps, CheckOf(steps)(i), i)
    {
      CheckPermits(steps, i);
    }
    forall k: nat | k <= |steps|
      ensures |InFlight(steps, CheckOf(steps), k)| <= 1
    {
      OneInFlight(steps, k);
    }
  }

  /** Then no interval of the length of a window holds more than eight failures. */
  lemma AtMostEight(steps: seq<Step>, from: Time)
    requires Disciplined(steps)
    ensures |FailuresIn(steps, from)| <= 8
  {
    OneAtATime(steps);
    AtMost(steps, CheckOf(steps), 1, from);
  }

  // ----- Without a limit on the logins in flight there is no bound -----

  /** `n` logins that are all let in before the first of them fails. */
  ghost function Burst(n: nat): seq<Step> {
    seq(2 * n, k => if k < n then Check(1) else Failure(1))
  }

  lemma {:induction false} NothingRecorded(n: nat, k: nat)
    requires k <= n
    ensures Replay(Burst(n), k) == ZERO
  {
    if k > 0 {
      NothingRecorded(n, k - 1);
    }
  }

  ghost function Before(n: nat): nat -> int {
    (i: nat) => i - n
  }

  lemma BurstIsChecked(n: nat)
    ensures Checked(Burst(n), Before(n))
  {
    forall i: nat | i < 2 * n && Burst(n)[i].Failure?
      ensures 0 <= Before(n)(i) < i && Burst(n)[Before(n)(i)] == Check(1) && Replay(Burst(n), Before(n)(i)) == ZERO
    {
      NothingRecorded(n, i - n);
    }
  }

  /** Every failure has an allowed check of its own, and one interval holds all of them. */
  lemma BurstIsUnbounded(n: nat)
    ensures Checked(Burst(n), Before(n)) && |FailuresIn(Burst(n), 1)| == n
    ensures forall i: nat, j: nat :: i != j ==> Before(n)(i) != Before(n)(j)
  {
    BurstIsChecked(n);
    var steps := Burst(n);
    forall i: nat
      ensures i in FailuresIn(steps, 1) <==> i in Run(n, n)
    {
    }
    assert FailuresIn(steps, 1) == Run(n, n);
  }

  // ----- The bound is met, for every number of logins in flight -----

  /** One failure, three late ones of its window, `c` logins let in together of which the last
      fails in the next window, three more there, and `c` more let in together. */
  ghost function Full(c: nat): seq<Step> {
    seq(14 + 4 * c, (k: nat) =>
      if k < 2 then if k == 0 then Check(1) else Failure(1)
      else if k < 8 then if k % 2 == 0 then Check(3) else Failure(3)
      else if k < 8 + c then Check(3)
      else if k < 7 + 2 * c then Failure(3)
      else if k < 14 + 2 * c then if k % 2 == 0 then Check(WINDOW + 2) else Failure(WINDOW + 2)
      else if k < 14 + 3 * c then Check(WINDOW + 2) else Failure(WINDOW + 2))
  }

  ghost function FullCheck(c: nat): nat -> int {
    (i: nat) => if 8 + c <= i < 8 + 2 * c || 14 + 3 * c <= i then i - c else i - 1
  }

  /** The entry after `k` steps. */
  ghost function FullState(c: nat, k: nat): Attempt {
    if k < 2 then ZERO
    else if k < 8 then Attempt(k / 2, 1, 0)
    else if k <= 8 + c then Attempt(4, 1, 0)
    else if k < 8 + 2 * c then Attempt(k - 4 - c, 1, WINDOW + 3)
    else if k < 14 + 2 * c then Attempt((k - 6 - 2 * c) / 2, WINDOW + 2, 0)
    else if k <= 14 + 3 * c then Attempt(4, WINDOW + 2, 0)
    else Attempt(k - 10 - 3 * c, WINDOW + 2, 2 * WINDOW + 2)
  }

  lemma FullStep(c: nat, k: nat)
    requires c >= 1 && k < 14 + 4 * c
    ensures AfterStep(FullState(c, k), Full(c)[k]) == FullState(c, k + 1)
  {
  }

  lemma {:induction false} FullReplay(c: nat, k: nat)
    requires c >= 1 && k <= 14 + 4 * c
    ensures Replay(Full(c), k) == FullState(c, k)
  {
    if k > 0 {
      FullReplay(c, k - 1);
      FullStep(c, k - 1);
    }
  }

  /** Every failure has an allowed check. */
  lemma FullCheckAllows(c: nat, i: nat)
    requires c >= 1 && i < |Full(c)| && Full(c)[i].Failure?
    ensures 0 <= FullCheck(c)(i) < i && Full(c)[FullCheck(c)(i)].Check?
    ensures FullState(c, FullCheck(c)(i)).lockedUntil == 0
  {
  }

  lemma FullIsOrdered(c: nat)
    ensures Ordered(Full(c))
  {
  }

  lemma FullIsChecked(c: nat)
    requires c >= 1
    ensures Checked(Full(c), FullCheck(c))
  {
    FullIsOrdered(c);
    forall i: nat | i < |Full(c)| && Full(c)[i].Failure?
      ensures 0 <= FullCheck(c)(i) < i && Full(c)[FullCheck(c)(i)].Check?
      ensures Allow(Replay(Full(c), FullCheck(c)(i)), Full(c)[FullCheck(c)(i)].t)
    {
      FullCheckAllows(c, i);
      FullReplay(c, FullCheck(c)(i));
    }
  }

  lemma FullOverlap(c: nat)
    requires c >= 1
    ensures Overlap(Full(c), FullCheck(c), c)
  {
    forall k: nat | k <= |Full(c)|
      ensures |InFlight(Full(c), FullCheck(c), k)| <= c
    {
      SubsetCard(InFlight(Full(c), FullCheck(c), k), Run(k, c));
    }
  }

  /** Where its failures in the interval are. */
  ghost predicate FailsAt(c: nat, i: nat) {
    || i == 3 || i == 5 || i == 7 || 8 + c <= i < 8 + 2 * c
    || i == 9 + 2 * c || i == 11 + 2 * c || i == 13 + 2 * c || 14 + 3 * c <= i < 14 + 4 * c
  }

  lemma FullFailures(c: nat, i: nat)
    requires c >= 1
    ensures i in FailuresIn(Full(c), 3) <==> FailsAt(c, i)
  {
  }

  lemma Three(a: nat)
    ensures |{a, a + 2, a + 4}| == 3
  {
    assert {a, a + 2, a + 4} - {a} - {a + 2} == {a + 4};
  }

  lemma ThreeAndRun(a: nat, n: nat, c: nat, t: set<nat>)
    requires n > a + 4 && forall i: nat :: i in t <==> i == a || i == a + 2 || i == a + 4 || n <= i < n + c
    ensures |t| == 3 + c
  {
    var x := {a, a + 2, a + 4};
    Three(a);
    Union(x, Run(n, c));
    forall i: nat
      ensures i in t <==> i in x + Run(n, c)
    {
    }
    assert t == x + Run(n, c);
  }

  lemma FullParts(c: nat, s: set<nat>)
    requires c >= 1 && forall i: nat :: i in s <==> FailsAt(c, i)
    ensures |s| == 2 * c + 6
  {
    var x, y := set i | i in s && i < 8 + 2 * c, set i | i in s && i >= 8 + 2 * c;
    ThreeAndRun(3, 8 + c, c, x);
    ThreeAndRun(9 + 2 * c, 14 + 3 * c, c, y);
    Union(x, y);
    assert s == x + y;
  }

  lemma FullCount(c: nat)
    requires c >= 1
    ensures |FailuresIn(Full(c), 3)| == 2 * c + 6
  {
    forall i: nat
      ensures i in FailuresIn(Full(c), 3) <==> FailsAt(c, i)
    {
      FullFailures(c, i);
    }
    FullParts(c, FailuresIn(Full(c), 3));
  }

  /** A run with at most `c` logins in flight, in which every failure has an allowed check of its
      own and some interval holds `2 * c + 6`. */
  lemma BoundIsReached(c: nat)
    requires c >= 1
    ensures Checked(Full(c), FullCheck(c)) && Overlap(Full(c), FullCheck(c), c)
    ensures |FailuresIn(Full(c), 3)| == 2 * c + 6
    ensures forall i: nat, j: nat :: i < j < |Full(c)| && Full(c)[i].Failure? && Full(c)[j].Failure? ==>
              FullCheck(c)(i) != FullCheck(c)(j)
  {
    FullIsChecked(c);
    FullOverlap(c);
    FullCount(c);
  }

  /** With one login at a time, eight. */
  lemma EightIsReached()
    ensures Disciplined(Full(1)) && |FailuresIn(Full(1), 3)| == 8
  {
    BoundIsReached(1);
    forall i: nat | i < |Full(1)| && Full(1)[i].Failure?
      ensures Permits(Full(1), i - 1, i)
    {
    }
  }
}
