/**
 The login limiter of `internal/auth/ratelimit.go` with all its keys.
 */
module LoginLimiter {
  import opened LoginAttempts
  import opened LoginBound

  const MAX_KEYS := 4096

  type Key = string

  type Attempts = map<Key, Attempt>

  /** When a key was last seen: the start of its window, or the end of its lock if later. */
  ghost function LastSeen(a: Attempt): Time {
    if a.lockedUntil > a.windowStart then a.lockedUntil else a.windowStart
  }

  ghost function Live(m: Attempts, now: Time): Attempts {
    map k | k in m && !Stale(m[k], now) :: m[k]
  }

  /** At most `MAX_KEYS` entries remain, and those evicted were seen no later than those kept. */
  ghost predicate Evicted(live: Attempts, kept: Attempts) {
    && kept.Keys <= live.Keys && (forall k :: k in kept ==> kept[k] == live[k])
    && |kept| == (if |live| <= MAX_KEYS then |live| else MAX_KEYS)
    && (forall e, k :: e in live && e !in kept && k in kept ==> NoLater(live[e], live[k]))
  }

  /** Neither the window of `a` begins nor its lock ends later than both of `b`. */
  ghost predicate NoLater(a: Attempt, b: Attempt) {
    && (a.windowStart <= b.windowStart || a.windowStart <= b.lockedUntil)
    && (a.lockedUntil <= b.windowStart || a.lockedUntil <= b.lockedUntil)
  }

  datatype Candidate = Candidate(key: Key, seen: Time)

  ghost predicate Sorted(items: seq<Candidate>) {
    forall i, j :: 0 <= i < j < |items| ==> items[i].seen <= items[j].seen
  }

  ghost predicate Distinct(items: seq<Candidate>) {
    forall i, j :: 0 <= i < j < |items| ==> items[i].key != items[j].key
  }

  ghost function Keys(items: seq<Candidate>): set<Key> {
    set i | 0 <= i < |items| :: items[i].key
  }

  /** Puts a candidate in its place. */
  method Insert(items: seq<Candidate>, c: Candidate) returns (r: seq<Candidate>, ghost at: nat)
    requires Sorted(items) && Distinct(items) && forall i :: 0 <= i < |items| ==> items[i].key != c.key
    ensures at <= |items| && r == items[..at] + [c] + items[at..]
    ensures Sorted(r) && Distinct(r)
  {
    var i := |items|;
    while i > 0 && c.seen < items[i - 1].seen
      invariant 0 <= i <= |items|
      invariant forall j :: i <= j < |items| ==> c.seen < items[j].seen
    {
      i := i - 1;
    }
    at := i;
    r := items[..i] + [c] + items[i..];
    InsertedInOrder(items, c, i, r);
  }

  lemma InsertedInOrder(items: seq<Candidate>, c: Candidate, at: nat, r: seq<Candidate>)
    requires Sorted(items) && Distinct(items) && at <= |items| && r == items[..at] + [c] + items[at..]
    requires forall j :: 0 <= j < |items| ==> items[j].key != c.key
    requires at > 0 ==> items[at - 1].seen <= c.seen
    requires forall j :: at <= j < |items| ==> c.seen < items[j].seen
    ensures Sorted(r) && Distinct(r)
  {
    forall i, j | 0 <= i < j < |r|
      ensures r[i].seen <= r[j].seen && r[i].key != r[j].key
    {
      InsertedAt(items, c, at, i);
      InsertedAt(items, c, at, j);
    }
  }

  lemma InsertedAt(items: seq<Candidate>, c: Candidate, at: nat, i: nat)
    requires at <= |items| && i <= |items|
    ensures (items[..at] + [c] + items[at..])[i] == if i < at then items[i] else if i == at then c else items[i - 1]
  {
  }

  lemma InsertedMembers(items: seq<Candidate>, c: Candidate, at: nat, x: Candidate)
    requires at <= |items|
    ensures x in items[..at] + [c] + items[at..] <==> x in items || x == c
  {
    assert items == items[..at] + items[at..];
  }

  /** The library's sort. */
  method SortBySeen(items: seq<Candidate>) returns (r: seq<Candidate>)
    requires Distinct(items)
    ensures Sorted(r) && Distinct(r) && |r| == |items|
    ensures forall x :: x in r <==> x in items
  {
    r := [];
    for n := 0 to |items|
      invariant Sorted(r) && Distinct(r) && |r| == n
      invariant forall x :: x in r <==> x in items[..n]
    {
      forall i | 0 <= i < |r|
        ensures r[i].key != items[n].key
      {
        assert r[i] in items[..n];
      }
      ghost var before, at := r, 0;
      r, at := Insert(r, items[n]);
      assert items[..n + 1] == items[..n] + [items[n]];
      forall x
        ensures x in r <==> x in items[..n + 1]
      {
        InsertedMembers(before, items[n], at, x);
      }
    }
    assert items[..|items|] == items;
  }

  // ----- The limiter -----

  class Limiter {
    var attempts: Attempts

    /** What happened to each key since it was last forgotten by a success or an eviction. */
    ghost var traces: map<Key, seq<Step>>

    ghost var clock: Time

    constructor ()
      ensures Valid() && attempts == map[] && traces == map[] && clock == 0
    {
      attempts, traces, clock := map[], map[], 0;
    }

    function Find(key: Key): Attempt
      reads this
    {
      if key in attempts then attempts[key] else ZERO
    }

    ghost function Trace(key: Key): seq<Step>
      reads this
    {
      if key in traces then traces[key] else []
    }

    ghost predicate Valid()
      reads this
    {
      Explains(attempts, traces, clock)
    }

    /** Removes forgotten entries. */
    method DropStale(now: Time)
      modifies this`attempts
      ensures attempts == Live(old(attempts), now)
    {
      var keys := attempts.Keys;
      while keys != {}
        invariant keys <= attempts.Keys
        invariant attempts.Keys <= old(attempts).Keys
        invariant forall k :: k in attempts ==> attempts[k] == old(attempts)[k]
        invariant forall k :: k in old(attempts) && k !in keys ==>
                    (k in attempts <==> !Stale(old(attempts)[k], now))
        invariant forall k :: k in keys ==> k in old(attempts)
      {
        var key :| key in keys;
        var item := attempts[key];
        if now > item.lockedUntil && item.windowStart != 0 && now - item.windowStart > STALE {
          attempts := attempts - {key};
        }
        keys := keys - {key};
      }
    }

    /** Lists the entries in whatever order the map gives them. */
    method Candidates() returns (items: seq<Candidate>)
      ensures Distinct(items) && |items| == |attempts|
      ensures forall i :: 0 <= i < |items| ==>
                items[i].key in attempts && items[i].seen == LastSeen(attempts[items[i].key])
    {
      items := [];
      var keys := attempts.Keys;
      while keys != {}
        invariant keys <= attempts.Keys && |items| + |keys| == |attempts|
        invariant Distinct(items)
        invariant forall i :: 0 <= i < |items| ==>
                    items[i].key in attempts && items[i].key !in keys
                    && items[i].seen == LastSeen(attempts[items[i].key])
      {
        var key :| key in keys;
        var item := attempts[key];
        var seen := item.windowStart;
        if item.lockedUntil > seen {
          seen := item.lockedUntil;
        }
        items := items + [Candidate(key, seen)];
        keys := keys - {key};
      }
    }

    /** Evicts the entries seen longest ago until `MAX_KEYS` remain. */
    method EvictOldest()
      modifies this`attempts
      ensures Evicted(old(attempts), attempts)
    {
      if |attempts| <= MAX_KEYS {
        return;
      }
      var items := Candidates();
      ghost var unsorted := items;
      items := SortBySeen(items);
      ghost var live := attempts;
      Covered(live, unsorted, items);
      DeleteFirst(items, |items| - MAX_KEYS);
      OldestGone(live, attempts, items, |items| - MAX_KEYS);
    }

    /** The loop that deletes the first `n` candidates. */
    method DeleteFirst(items: seq<Candidate>, n: nat)
      requires n <= |items| == |attempts| && Distinct(items)
      requires forall i :: 0 <= i < |items| ==> items[i].key in attempts
      modifies this`attempts
      ensures attempts.Keys <= old(attempts).Keys && |attempts| == old(|attempts|) - n
      ensures forall k :: k in attempts ==> attempts[k] == old(attempts)[k]
      ensures forall i :: 0 <= i < n ==> items[i].key !in attempts
      ensures forall i :: n <= i < |items| ==> items[i].key in attempts
    {
      for index := 0 to n
        invariant attempts.Keys <= old(attempts).Keys && |attempts| == old(|attempts|) - index
        invariant forall k :: k in attempts ==> attempts[k] == old(attempts)[k]
        invariant forall i :: 0 <= i < index ==> items[i].key !in attempts
        invariant forall i :: index <= i < |items| ==> items[i].key in attempts
      {
        ghost var before := attempts;
        attempts := attempts - {items[index].key};
        assert attempts.Keys == before.Keys - {items[index].key};
      }
    }

    /** `pruneLocked`. */
    method Prune(now: Time)
      requires Valid() && clock <= now && now > 0
      modifies this
      ensures Valid() && clock == now
      ensures Evicted(Live(old(attempts), now), attempts)
      ensures traces == Aged(old(traces), Live(old(attempts), now), attempts, now)
    {
      ghost var before := attempts;
      RemoveEntries(now);
      PruneExplained(before, Live(before, now), attempts, traces, clock, now);
      traces, clock := Aged(traces, Live(before, now), attempts, now), now;
    }

    method RemoveEntries(now: Time)
      modifies this`attempts
      ensures Evicted(Live(old(attempts), now), attempts)
    {
      DropStale(now);
      EvictOldest();
    }

    /** Whether a login may be tried now, and otherwise how long to wait. */
    method Allowed(key: Key, now: Time) returns (ok: bool, retry: nat)
      requires Valid() && clock <= now && now > 0
      modifies this
      ensures Valid() && clock == now
      ensures Evicted(Live(old(attempts), now), attempts)
      ensures ok <==> Allow(Find(key), now)
      ensures retry == (if ok then 0 else Find(key).lockedUntil - now)
      ensures traces == Noted(Aged(old(traces), Live(old(attempts), now), attempts, now), key, Check(now))
    {
      Prune(now);
      ok, retry := Consult(key, now);
    }

    /** The part of `Allowed` after the pruning. */
    method Consult(key: Key, now: Time) returns (ok: bool, retry: nat)
      requires Valid() && clock == now && now > 0
      modifies this`traces
      ensures Valid() && traces == Noted(old(traces), key, Check(now))
      ensures ok <==> Allow(Find(key), now)
      ensures retry == (if ok then 0 else Find(key).lockedUntil - now)
    {
      NoteCheck(attempts, traces, clock, key, now);
      traces := Noted(traces, key, Check(now));
      var a := Find(key);
      if now < a.lockedUntil {
        return false, a.lockedUntil - now;
      }
      return true, 0;
    }

    /** The part of `Fail` before the pruning. */
    method Record(key: Key, now: Time)
      requires Valid() && clock <= now && now > 0
      modifies this
      ensures Valid() && clock == now
      ensures attempts == old(attempts)[key := Failed(old(Find(key)), now)]
      ensures traces == Noted(old(traces), key, Failure(now))
    {
      var a := Find(key);
      ghost var after := Failed(a, now);
      NoteFailure(attempts, traces, clock, key, now);
      if a.windowStart == 0 || now - a.windowStart > WINDOW {
        a := Attempt(0, now, 0);
      }
      a := a.(count := a.count + 1);
      if a.count >= 5 {
        a := a.(lockedUntil := now + WINDOW);
      }
      assert a == after;
      ghost var noted, recorded := Noted(traces, key, Failure(now)), attempts[key := after];
      assert Explains(recorded, noted, now);
      attempts, traces, clock := attempts[key := a], noted, now;
    }

    /** Records a failure. */
    method Fail(key: Key, now: Time)
      requires Valid() && clock <= now && now > 0
      modifies this
      ensures Valid() && clock == now && |attempts| <= MAX_KEYS
      ensures var recorded := Live(old(attempts)[key := Failed(old(Find(key)), now)], now);
              && Evicted(recorded, attempts)
              && traces == Aged(Noted(old(traces), key, Failure(now)), recorded, attempts, now)
    {
      Record(key, now);
      Prune(now);
    }

    /** Forgets the key. */
    method Success(key: Key)
      requires Valid()
      modifies this
      ensures Valid() && clock == old(clock)
      ensures attempts == old(attempts) - {key} && traces == old(traces) - {key}
    {
      attempts := attempts - {key};
      traces := traces - {key};
    }

    /** For every key, in every reachable state: the bound since its last success or eviction,
        with logins that were let in before that among those in flight. */
    lemma KeyIsLimited(key: Key, check: nat -> int, c: nat, from: Time)
      requires Valid() && Checked(Trace(key), check) && Overlap(Trace(key), check, c)
      ensures |FailuresIn(Trace(key), from)| <= 2 * c + 6
    {
      AtMost(Trace(key), check, c, from);
    }
  }

  // ----- What the traces say -----

  /** Every entry is what the trace of its key leads to. */
  ghost predicate Explains(attempts: Attempts, traces: map<Key, seq<Step>>, clock: Time) {
    && attempts.Keys <= traces.Keys
    && forall k :: k in traces ==> Explained(if k in attempts then attempts[k] else ZERO, traces[k], clock)
  }

  ghost predicate Explained(a: Attempt, steps: seq<Step>, clock: Time) {
    && Ordered(steps) && Replay(steps, |steps|) == a
    && (forall i :: 0 <= i < |steps| ==> steps[i].t <= clock)
  }

  ghost function Noted(traces: map<Key, seq<Step>>, key: Key, step: Step): map<Key, seq<Step>> {
    traces[key := (if key in traces then traces[key] else []) + [step]]
  }

  /** Pruning ages every key; an evicted one starts over. */
  ghost function Aged(traces: map<Key, seq<Step>>, live: Attempts, kept: Attempts, now: Time): map<Key, seq<Step>> {
    map k | k in traces && !(k in live && k !in kept) :: traces[k] + [Age(now)]
  }

  lemma {:induction false} ReplayPrefix(steps: seq<Step>, step: Step, k: nat)
    requires k <= |steps|
    ensures Replay(steps + [step], k) == Replay(steps, k)
  {
    if k > 0 {
      ReplayPrefix(steps, step, k - 1);
    }
  }

  lemma ExplainStep(a: Attempt, steps: seq<Step>, clock: Time, step: Step)
    requires Explained(a, steps, clock) && clock <= step.t && step.t > 0
    ensures Explained(AfterStep(a, step), steps + [step], step.t)
  {
    ReplayPrefix(steps, step, |steps|);
  }

  lemma NoteCheck(attempts: Attempts, traces: map<Key, seq<Step>>, clock: Time, key: Key, now: Time)
    requires Explains(attempts, traces, clock) && clock <= now && now > 0
    ensures Explains(attempts, Noted(traces, key, Check(now)), now)
  {
    var a, steps := if key in attempts then attempts[key] else ZERO, if key in traces then traces[key] else [];
    ExplainStep(a, steps, clock, Check(now));
  }

  lemma NoteFailure(attempts: Attempts, traces: map<Key, seq<Step>>, clock: Time, key: Key, now: Time)
    requires Explains(attempts, traces, clock) && clock <= now && now > 0
    ensures var a := if key in attempts then attempts[key] else ZERO;
            Explains(attempts[key := Failed(a, now)], Noted(traces, key, Failure(now)), now)
  {
    var a, steps := if key in attempts then attempts[key] else ZERO, if key in traces then traces[key] else [];
    ExplainStep(a, steps, clock, Failure(now));
  }

  lemma PruneExplained(attempts: Attempts, live: Attempts, kept: Attempts, traces: map<Key, seq<Step>>, clock: Time,
                       now: Time)
    requires Explains(attempts, traces, clock) && clock <= now && now > 0
    requires live == Live(attempts, now) && Evicted(live, kept)
    ensures Explains(kept, Aged(traces, live, kept, now), now)
  {
    forall k | k in Aged(traces, live, kept, now)
      ensures Explained(if k in kept then kept[k] else ZERO, traces[k] + [Age(now)], now)
    {
      ExplainStep(if k in attempts then attempts[k] else ZERO, traces[k], clock, Age(now));
    }
  }

  /** What lies before position `n` of the sorted list is gone, the rest is kept. */
  lemma OldestGone(live: Attempts, kept: Attempts, items: seq<Candidate>, n: nat)
    requires Sorted(items) && n <= |items|
    requires forall i :: 0 <= i < |items| ==> items[i].key in live && items[i].seen == LastSeen(live[items[i].key])
    requires forall k :: k in live ==> exists i :: 0 <= i < |items| && items[i].key == k
    requires kept.Keys <= live.Keys
    requires forall i :: 0 <= i < n ==> items[i].key !in kept
    requires forall i :: n <= i < |items| ==> items[i].key in kept
    ensures forall e, k :: e in live && e !in kept && k in kept ==> NoLater(live[e], live[k])
  {
    forall e, k | e in live && e !in kept && k in kept
      ensures NoLater(live[e], live[k])
    {
      var i :| 0 <= i < |items| && items[i].key == e;
      var j :| 0 <= j < |items| && items[j].key == k;
    }
  }

  /** A list of as many distinct keys as a map has contains all of them. */
  lemma Covered(m: Attempts, unsorted: seq<Candidate>, items: seq<Candidate>)
    requires Distinct(unsorted) && Distinct(items) && |items| == |m|
    requires forall x :: x in items <==> x in unsorted
    requires forall i :: 0 <= i < |unsorted| ==>
               unsorted[i].key in m && unsorted[i].seen == LastSeen(m[unsorted[i].key])
    ensures forall i :: 0 <= i < |items| ==> items[i].key in m && items[i].seen == LastSeen(m[items[i].key])
    ensures forall k :: k in m ==> exists i :: 0 <= i < |items| && items[i].key == k
  {
    forall i | 0 <= i < |items|
      ensures items[i].key in m && items[i].seen == LastSeen(m[items[i].key])
    {
      assert items[i] in unsorted;
    }
    KeysCard(items);
    SubsetEqual(Keys(items), m.Keys);
  }

  lemma {:induction false} KeysCard(items: seq<Candidate>)
    requires Distinct(items)
    ensures |Keys(items)| == |items|
  {
    if items != [] {
      var n := |items| - 1;
      KeysCard(items[..n]);
      assert Keys(items) == Keys(items[..n]) + {items[n].key};
    }
  }

  lemma {:induction false} SubsetEqual<T>(s: set<T>, t: set<T>)
    requires s <= t && |s| == |t|
    ensures s == t
  {
    if s != {} {
      var x :| x in s;
      SubsetEqual(s - {x}, t - {x});
    }
  }
}
