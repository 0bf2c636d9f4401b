/**
 The audit files of `internal/server/audit.go`: a live file and up to six rotated
 ones.  File 0 is the live file and file `i` is the one with suffix `.i`.  The
 history of appended events is kept newest first, in the order queries use.
 */
module AuditFiles {
  import opened Prelude
  import opened Splitting
  import opened AuditTail

  const ROTATE_BYTES := 20971520
  const ROTATE_FILES := 6
  const QUERY_MAX := 50000

  type Files = map<nat, seq<Byte>>

  datatype Errno = Done | Missing | Failed

  datatype Query = Query(limit: int, offset: int)

  datatype Page<+E> = Page(events: seq<E>, total: nat)

  // ----- The events kept in the files -----

  /** The events of a file's content, newest first. */
  type Reading<!E> = seq<Byte> -> seq<E>

  /** The events of file `i`. */
  ghost function EventsOf<E>(events: Reading<E>, files: Files, i: nat): seq<E> {
    if i in files then events(files[i]) else []
  }

  /** The events of file `i` and all older files, newest first. */
  ghost function Kept<E>(events: Reading<E>, files: Files, i: nat): seq<E>
    decreases ROTATE_FILES + 1 - i
  {
    if i > ROTATE_FILES then [] else EventsOf(events, files, i) + Kept(events, files, i + 1)
  }

  ghost predicate Terminated(file: seq<Byte>) {
    file == [] || file[|file| - 1] == NEWLINE
  }

  /** Files that agree on `i` and above keep the same events there. */
  lemma {:induction false} KeptSame<E>(events: Reading<E>, f: Files, g: Files, i: nat)
    requires forall k: nat :: i <= k <= ROTATE_FILES ==> EventsOf(events, f, k) == EventsOf(events, g, k)
    ensures Kept(events, f, i) == Kept(events, g, i)
    decreases ROTATE_FILES + 1 - i
  {
    if i <= ROTATE_FILES {
      KeptSame(events, f, g, i + 1);
    }
  }

  lemma KeptSkip<E>(events: Reading<E>, f: Files, i: nat)
    requires i <= ROTATE_FILES && i !in f
    ensures Kept(events, f, i) == Kept(events, f, i + 1)
  {
  }

  lemma KeptNext<E>(events: Reading<E>, f: Files, i: nat)
    requires i <= ROTATE_FILES
    ensures Kept(events, f, i) == EventsOf(events, f, i) + Kept(events, f, i + 1)
  {
  }

  lemma KeptMoveHere<E>(events: Reading<E>, f: Files, g: Files, from: nat)
    requires from < ROTATE_FILES
    requires from in f && from + 1 !in f && g == (f - {from})[from + 1 := f[from]]
    ensures Kept(events, f, from) == Kept(events, g, from)
  {
    KeptNext(events, f, from);
    KeptSkip(events, f, from + 1);
    KeptSkip(events, g, from);
    KeptNext(events, g, from + 1);
    KeptSame(events, f, g, from + 2);
  }

  /** Moving a file to a free suffix one higher keeps all events in their order. */
  lemma {:induction false} KeptMove<E>(events: Reading<E>, f: Files, g: Files, i: nat, from: nat)
    requires i <= from < ROTATE_FILES
    requires from in f && from + 1 !in f && g == (f - {from})[from + 1 := f[from]]
    ensures Kept(events, f, i) == Kept(events, g, i)
    decreases from - i
  {
    if i < from {
      KeptMove(events, f, g, i + 1, from);
      KeptNext(events, f, i);
      KeptNext(events, g, i);
    } else {
      KeptMoveHere(events, f, g, from);
    }
  }

  /** Losing the file with the highest suffix loses exactly its events, the oldest ones. */
  lemma {:induction false} KeptDrop<E>(events: Reading<E>, f: Files, g: Files, i: nat)
    requires i <= ROTATE_FILES && g == f - {ROTATE_FILES}
    ensures Kept(events, f, i) == Kept(events, g, i) + EventsOf(events, f, ROTATE_FILES)
    decreases ROTATE_FILES - i
  {
    if i < ROTATE_FILES {
      KeptDrop(events, f, g, i + 1);
      Assoc(EventsOf(events, f, i), Kept(events, g, i + 1), EventsOf(events, f, ROTATE_FILES));
    } else {
      KeptSkip(events, g, i);
    }
  }

  /** A terminated text that is not empty has at least two parts. */
  lemma {:induction false} TwoParts(x: seq<Byte>)
    requires x != [] && Terminated(x)
    ensures |Split(x, NEWLINE)| >= 2
  {
    if |x| > 1 {
      TwoParts(x[1..]);
    }
  }

  /** A clean text behind a terminated one is a part of its own. */
  lemma {:induction false} SplitTerminated(x: seq<Byte>, line: seq<Byte>)
    requires Terminated(x) && NEWLINE !in line
    ensures var parts := Split(x, NEWLINE);
            Split(x + line, NEWLINE) == parts[..|parts| - 1] + [line] && parts[|parts| - 1] == []
  {
    SplitOne(line, NEWLINE);
    if x == [] {
      assert x + line == line;
    } else {
      SplitFront(x, line, NEWLINE);
      if |x| == 1 {
        assert x[1..] + line == line;
        assert Split(x, NEWLINE) == [[]] + [[]];
      } else {
        SplitTerminated(x[1..], line);
        TwoParts(x[1..]);
        var rest := Split(x[1..], NEWLINE);
        var init, blank: seq<Byte> := rest[..|rest| - 1], [];
        assert rest == init + [blank];
        PushAppend(x[0], init, [line], NEWLINE);
        PushAppend(x[0], init, [blank], NEWLINE);
      }
    }
  }

  /** Appending one encoded event puts it in front of the events of the file. */
  lemma AppendEvent<E>(decode: Decoder<E>, file: seq<Byte>, line: seq<Byte>)
    requires Terminated(file) && NEWLINE !in line
    ensures FileEvents(decode, file + (line + [NEWLINE])) == LineEvent(decode, line) + FileEvents(decode, file)
  {
    var parts := Split(file, NEWLINE);
    var older, blank: seq<Byte> := parts[..|parts| - 1], [];
    AppendLine(file, line);
    SplitTerminated(file, []);
    NewestLast(decode, older + [line], blank);
    NewestLast(decode, older, line);
    NewestLast(decode, older, blank);
    assert file + [] == file;
  }

  lemma NewestLast<E>(decode: Decoder<E>, lines: seq<seq<Byte>>, last: seq<Byte>)
    ensures Newest(decode, lines + [last]) == LineEvent(decode, last) + Newest(decode, lines)
  {
    assert (lines + [last])[..|lines|] == lines;
  }

  lemma LineAndEnd(line: seq<Byte>)
    requires NEWLINE !in line
    ensures Split(line + [NEWLINE], NEWLINE) == [line, []]
  {
    var end: seq<Byte> := [NEWLINE];
    assert end[1..] == [];
    assert Split(end, NEWLINE) == Push(NEWLINE, [[]], NEWLINE) == [[]] + [[]];
    SplitAppend(line, end, NEWLINE);
    assert line + [] == line;
    SplitOne(line, NEWLINE);
  }

  /** The parts of a file one line longer. */
  lemma AppendLine(file: seq<Byte>, line: seq<Byte>)
    requires Terminated(file) && NEWLINE !in line
    ensures var parts := Split(file, NEWLINE);
            Split(file + (line + [NEWLINE]), NEWLINE) == parts[..|parts| - 1] + [line] + [[]]
  {
    LineAndEnd(line);
    SplitTerminated(file, line);
    SplitAppend(file, line + [NEWLINE], NEWLINE);
  }

  // ----- The log -----

  /** `at` lists the places of the matching events in `all`, from the first on. */
  ghost predicate Selects<E>(matches: E -> bool, all: seq<E>, at: seq<nat>) {
    && (forall i, j :: 0 <= i < j < |at| ==> at[i] < at[j])
    && (forall i :: 0 <= i < |at| ==> at[i] < |all|)
    && (forall k: nat :: k < |all| ==> (matches(all[k]) <==> k in at))
  }

  /** The loop over the events that have been read. */
  method Matching<E>(matches: E -> bool, all: seq<E>) returns (matched: seq<E>, ghost at: seq<nat>)
    ensures Selects(matches, all, at)
    ensures |matched| == |at| && forall k :: 0 <= k < |at| ==> matched[k] == all[at[k]]
  {
    matched, at := [], [];
    for i := 0 to |all|
      invariant forall j, k :: 0 <= j < k < |at| ==> at[j] < at[k]
      invariant forall j :: 0 <= j < |at| ==> at[j] < i
      invariant forall k: nat :: k < i ==> (matches(all[k]) <==> k in at)
      invariant |matched| == |at| && forall k :: 0 <= k < |at| ==> matched[k] == all[at[k]]
    {
      if matches(all[i]) {
        matched, at := matched + [all[i]], at + [i];
      }
    }
  }

  /** The page of the matching events that begins with number `offset` of them. */
  ghost predicate IsPage<E>(matches: E -> bool, all: seq<E>, limit: nat, offset: nat, page: Page<E>) {
    exists at: seq<nat> ::
      && Selects(matches, all, at)
      && page.total == |at|
      && |page.events| == (if offset >= |at| then 0 else if offset + limit <= |at| then limit else |at| - offset)
      && forall k :: 0 <= k < |page.events| ==> page.events[k] == all[at[offset + k]]
  }

  /** Filters the events, and cuts the page out of what is left. */
  method Paged<E>(matches: E -> bool, all: seq<E>, limit: nat, offset: nat) returns (page: Page<E>)
    ensures IsPage(matches, all, limit, offset, page)
  {
    var matched, at := Matching(matches, all);
    var total, start := |matched|, offset;
    if start > total {
      start := total;
    }
    var end := start + limit;
    if end > total {
      end := total;
    }
    page := Page(matched[start..end], total);
  }

  function Normalize(q: Query): (r: Query)
    ensures 1 <= r.limit <= 2000 && 0 <= r.offset <= 1000000
    ensures r.limit == q.limit || (r.limit == 300 && !(1 <= q.limit <= 2000))
    ensures r.offset == q.offset || (r.offset == 0 && !(0 <= q.offset <= 1000000))
  {
    Query(if q.limit < 1 || q.limit > 2000 then 300 else q.limit,
          if q.offset < 0 || q.offset > 1000000 then 0 else q.offset)
  }

  class AuditLog<E(!new)> {
    const encode: E -> seq<Byte>
    const decode: Decoder<E>

    /** What the files mean. */
    ghost const events: Reading<E>

    var files: Files

    /** Every event ever appended, newest first, as it reads back. */
    ghost var history: seq<E>

    /** How many file operations have failed so far. */
    ghost var failures: nat

    /** An encoded event is one line that reads back as an event. */
    ghost predicate Encodes(e: E) {
      NEWLINE !in encode(e) && encode(e) != [] && decode(encode(e)).Some?
    }

    /** All events still in the files, newest first. */
    ghost function AllKept(): seq<E>
      reads this
    {
      Kept(events, files, 0)
    }

    ghost predicate Reads() {
      forall file: seq<Byte> {:trigger FileEvents(decode, file)} :: events(file) == FileEvents(decode, file)
    }

    /** Without failures the rotated files have no gaps and are full, and an event is only
        gone if all rotated files exist. */
    ghost predicate Orderly()
      reads this
    {
      Tidy(files) && (AllKept() != history ==> ROTATE_FILES in files)
    }

    ghost predicate Valid()
      reads this
    {
      && Sound(files)
      && AllKept() <= history
      && (failures == 0 ==> Orderly())
    }

    constructor (encode: E -> seq<Byte>, decode: Decoder<E>)
      ensures Valid() && Reads() && history == [] && failures == 0
      ensures this.encode == encode && this.decode == decode
    {
      this.encode, this.decode := encode, decode;
      events := file => FileEvents(decode, file);
      files, history, failures := map[], [], 0;
      new;
      KeptNothing(events, files, 0);
    }

    /** `os.Rename` between two rotated files, or from the live one. */
    method Rename(from: nat, to: nat) returns (r: Errno)
      modifies this`files, this`failures
      ensures r == Missing ==> from !in old(files)
      ensures r == Done ==> from in old(files) && files == (old(files) - {from})[to := old(files)[from]]
      ensures r != Done ==> files == old(files)
      ensures failures == old(failures) + (if r == Failed then 1 else 0)
    {
      if * {
        failures := failures + 1;
        return Failed;
      }
      if from !in files {
        return Missing;
      }
      files := (files - {from})[to := files[from]];
      return Done;
    }

    method Remove(i: nat) returns (r: Errno)
      modifies this`files, this`failures
      ensures r == Missing ==> i !in old(files)
      ensures r != Failed ==> files == old(files) - {i}
      ensures r == Failed ==> files == old(files)
      ensures failures == old(failures) + (if r == Failed then 1 else 0)
    {
      if * {
        failures := failures + 1;
        return Failed;
      }
      r := if i in files then Done else Missing;
      files := files - {i};
    }

    /** Renames file `i` to the next suffix. */
    method MoveUp(i: nat) returns (r: Errno)
      requires i < ROTATE_FILES && (i + 1 in files ==> i + 1 == ROTATE_FILES)
      requires Sound(files)
      modifies this`files, this`failures
      ensures failures == old(failures) + (if r == Failed then 1 else 0)
      ensures Sound(files)
      ensures r == Failed ==> files == old(files)
      ensures r == Missing ==> i !in old(files)
      ensures r != Failed ==> i !in files && Moved(old(files), files, i)
      ensures i + 1 !in old(files) ==> AllKept() == old(AllKept())
      ensures LosesOldest(events, old(files), files)
    {
      ghost var f := files;
      r := Rename(i, i + 1);
      if r == Done {
        MoveOver(events, f, files, i);
      }
    }

    /** The loop of the rotation: files 5 down to 1 move up. */
    method ShiftRotated() returns (ok: bool)
      requires Sound(files)
      modifies this`files, this`failures
      ensures Sound(files) && failures >= old(failures)
      ensures ROTATE_FILES !in old(files) ==> AllKept() == old(AllKept())
      ensures LosesOldest(events, old(files), files)
      ensures ok ==> 1 !in files && SameUpTo(old(files), files, 0)
      ensures failures == old(failures) ==> ok
      ensures failures == old(failures) && ROTATE_FILES !in old(files) ==> ShiftedAbove(old(files), files, 1)
    {
      var i := ROTATE_FILES - 1;
      while i >= 1
        invariant 0 <= i < ROTATE_FILES
        invariant Sound(files) && failures >= old(failures)
        invariant SameUpTo(old(files), files, i)
        invariant i == ROTATE_FILES - 1 ==> files == old(files)
        invariant i < ROTATE_FILES - 1 ==> i + 1 !in files
        invariant ROTATE_FILES !in old(files) ==> ShiftedAbove(old(files), files, i + 1)
        invariant ROTATE_FILES !in old(files) ==> AllKept() == old(AllKept())
        invariant LosesOldest(events, old(files), files)
      {
        ghost var f := files;
        var r := MoveUp(i);
        if r == Failed {
          return false;
        }
        ShiftStep(old(files), f, files, i);
        i := i - 1;
      }
      assert i == 0 && 1 !in files;
      ok := true;
    }

    /** Removes the file with the highest suffix, if that works. */
    method RemoveOldest()
      requires Sound(files)
      modifies this`files, this`failures
      ensures Sound(files) && failures >= old(failures)
      ensures files == old(files) || files == old(files) - {ROTATE_FILES}
      ensures failures == old(failures) ==> files == old(files) - {ROTATE_FILES}
      ensures files == old(files) - {ROTATE_FILES} ==>
                old(AllKept()) == AllKept() + EventsOf(events, old(files), ROTATE_FILES)
    {
      var r := Remove(ROTATE_FILES);
      KeptDrop(events, old(files), old(files) - {ROTATE_FILES}, 0);
    }

    /** Moves every file one suffix up.  Whatever fails, the order of the events stays and
        only the oldest file can be lost. */
    method Rotate() returns (ok: bool)
      requires Sound(files) && 0 in files
      modifies this`files, this`failures
      ensures Sound(files) && failures >= old(failures)
      ensures LosesOldest(events, old(files), files)
      ensures failures == old(failures) ==> ok && IsShifted(old(files), files)
    {
      ghost var f := files;
      RemoveOldest();
      ghost var f1 := files;
      ok := ShiftRotated();
      RemovedThenShifted(events, f, f1, files);
      if !ok {
        return;
      }
      ghost var f2 := files;
      var r := MoveUp(0);
      ok := r == Done;
      if failures == old(failures) {
        RotationShifts(f, f1, f2, files);
      }
    }

    /** Rotates when the live file is full. */
    method RotateIfNeeded() returns (ok: bool)
      requires Valid()
      modifies this`files, this`failures
      ensures Valid() && failures >= old(failures)
      ensures LosesOldest(events, old(files), files)
      ensures 0 !in old(files) || |old(files)[0]| < ROTATE_BYTES ==> files == old(files)
      ensures failures == old(failures) ==> ok
      ensures failures == old(failures) && 0 in old(files) && |old(files)[0]| >= ROTATE_BYTES ==>
                IsShifted(old(files), files)
    {
      if * {
        failures := failures + 1;
        return false;
      }
      if 0 !in files || |files[0]| < ROTATE_BYTES {
        return true;
      }
      ghost var f := files;
      ok := Rotate();
      if failures == 0 {
        TidyShift(f, files);
      }
    }

    /** One more line in the live file is one more event in front. */
    lemma LiveLine(live: seq<Byte>, e: E)
      requires Reads() && Encodes(e) && Terminated(live)
      ensures events(live + (encode(e) + [NEWLINE])) == [decode(encode(e)).value] + events(live)
      ensures events([]) == []
    {
      AppendEvent(decode, live, encode(e));
      EmptyFile(decode);
    }

    /** What one more line makes of the files. */
    lemma Appended(f: Files, history: seq<E>, e: E)
      requires Reads() && Encodes(e) && Sound(f) && Kept(events, f, 0) <= history
      ensures var x, g := decode(encode(e)).value, f[0 := LiveOf(f) + (encode(e) + [NEWLINE])];
              && Sound(g) && (Tidy(f) ==> Tidy(g))
              && Kept(events, g, 0) == [x] + Kept(events, f, 0)
              && Kept(events, g, 0) <= [x] + history
              && (Kept(events, f, 0) == history ==> Kept(events, g, 0) == [x] + history)
    {
      LiveLine(LiveOf(f), e);
      LineIsNewest(events, f, encode(e) + [NEWLINE], decode(encode(e)).value);
      LineKeepsOrder(f, encode(e) + [NEWLINE]);
      InFront(decode(encode(e)).value, Kept(events, f, 0), history);
    }

    /** Appends one line to the live file. */
    method Append(e: E)
      requires Valid() && Reads() && Encodes(e)
      modifies this`files, this`history
      ensures Valid()
      ensures history == [decode(encode(e)).value] + old(history)
      ensures AllKept() == [decode(encode(e)).value] + old(AllKept())
      ensures files == old(files)[0 := LiveOf(old(files)) + (encode(e) + [NEWLINE])]
    {
      Appended(files, history, e);
      files := files[0 := LiveOf(files) + (encode(e) + [NEWLINE])];
      history := [decode(encode(e)).value] + history;
    }

    /** Appends an event to the live file, after a rotation if the file is full. */
    method Write(e: E) returns (appended: bool)
      requires Valid() && Reads() && Encodes(e)
      modifies this`files, this`failures, this`history
      ensures Valid() && failures >= old(failures)
      ensures failures == old(failures) ==> appended
      ensures history == (if appended then [decode(encode(e)).value] + old(history) else old(history))
      ensures appended ==> AllKept() != [] && AllKept()[0] == decode(encode(e)).value
      ensures failures == old(failures) ==> LineAdded(old(files), files, encode(e) + [NEWLINE])
    {
      var _ := RotateIfNeeded();
      ghost var rotated := files;
      if * {
        failures := failures + 1;
        return false;
      }
      Append(e);
      appended := true;
      if failures == old(failures) {
        AddedBehindRotation(old(files), rotated, files, encode(e) + [NEWLINE]);
      }
    }

    /** A block of one of the files cannot be read, or one of them has a line that is too long. */
    ghost predicate HasCause(readable: (nat, nat) -> bool, e: ReadError)
      reads this
    {
      match e
      case NotExist => false
      case ReadFailed => exists k: nat, p: nat :: k in files && p < |files[k]| && !readable(k, p)
      case LineTooLong => exists k: nat, line :: k in files && line in Split(files[k], NEWLINE) && |line| > MAX_LINE
    }

    /** The requested page of the matching events among the newest ones kept. */
    method QueryFiles(readable: (nat, nat) -> bool, q: Query, matches: E -> bool)
      returns (r: Result<Page<E>, ReadError>)
      requires Valid() && Reads()
      ensures r.Ok? ==>
                IsPage(matches, Take(AllKept(), QUERY_MAX), Normalize(q).limit, Normalize(q).offset, r.value)
      ensures r.Err? ==> HasCause(readable, r.error)
    {
      var query := Normalize(q);
      var all := ReadNewest(readable, QUERY_MAX);
      if all.Err? {
        return Err(all.error);
      }
      var page := Paged(matches, all.value, query.limit, query.offset);
      r := Ok(page);
    }

    /** The loop over the files, live file first. */
    method ReadNewest(readable: (nat, nat) -> bool, max: nat) returns (r: Result<seq<E>, ReadError>)
      requires Reads()
      ensures r.Ok? ==> r.value == Take(AllKept(), max)
      ensures r.Err? ==> HasCause(readable, r.error)
    {
      var all := [];
      ghost var seen: seq<E> := [];
      var i := 0;
      while i <= ROTATE_FILES && |all| < max
        invariant 0 <= i <= ROTATE_FILES + 1
        invariant Collected(i, max, all, seen)
      {
        var next;
        next, seen := ReadNext(i, readable, max, all, seen);
        if next.Err? {
          return next;
        }
        all := next.value;
        i := i + 1;
      }
      TakeFull(seen, Kept(events, files, i), max);
      r := Ok(all);
    }

    /** The newest `max` events of the files before `i` have been collected. */
    ghost predicate Collected(i: nat, max: nat, all: seq<E>, seen: seq<E>)
      reads this
    {
      all == Take(seen, max) && seen + Kept(events, files, i) == AllKept()
    }

    /** Reads one more file. */
    method ReadNext(i: nat, readable: (nat, nat) -> bool, max: nat, all: seq<E>, ghost seen: seq<E>)
      returns (r: Result<seq<E>, ReadError>, ghost seen': seq<E>)
      requires Reads() && i <= ROTATE_FILES && |all| < max && Collected(i, max, all, seen)
      ensures r.Ok? ==> Collected(i + 1, max, r.value, seen')
      ensures r.Err? ==> HasCause(readable, r.error)
    {
      seen' := seen + EventsOf(events, files, i);
      OneMoreFile(events, files, i, seen, max);
      r := ReadPart(i, readable, max - |all|);
      if r.Ok? {
        r := Ok(all + r.value);
      }
    }

    /** A missing file has no events. */
    method ReadPart(i: nat, readable: (nat, nat) -> bool, limit: nat) returns (r: Result<seq<E>, ReadError>)
      requires Reads()
      ensures r.Ok? ==> r.value == Take(EventsOf(events, files, i), limit)
      ensures r.Err? ==> HasCause(readable, r.error)
    {
      var file := if i in files then Some(files[i]) else None;
      r := ReadAuditTail(file, (p: nat) => readable(i, p), limit, decode);
      if r == Err(NotExist) {
        r := Ok([]);
      }
    }
  }

  /** What was collected from the newer files, and one more file. */
  lemma OneMoreFile<E>(events: Reading<E>, f: Files, i: nat, seen: seq<E>, n: nat)
    requires i <= ROTATE_FILES && |Take(seen, n)| < n
    ensures Take(seen, n) + Take(EventsOf(events, f, i), n - |Take(seen, n)|) == Take(seen + EventsOf(events, f, i), n)
    ensures seen + Kept(events, f, i) == seen + EventsOf(events, f, i) + Kept(events, f, i + 1)
  {
    Assoc(seen, EventsOf(events, f, i), Kept(events, f, i + 1));
    TakeTake(seen, EventsOf(events, f, i), n);
  }

  /** The kept events are the same, or the events of the oldest file are gone. */
  ghost predicate LosesOldest<E>(events: Reading<E>, f: Files, g: Files) {
    || Kept(events, g, 0) == Kept(events, f, 0)
    || Kept(events, g, 0) + EventsOf(events, f, ROTATE_FILES) == Kept(events, f, 0)
  }

  /** File names in range, and every line complete. */
  ghost predicate Sound(f: Files) {
    forall i :: i in f ==> i <= ROTATE_FILES && Terminated(f[i])
  }

  ghost predicate SameUpTo(f: Files, g: Files, i: nat) {
    forall k :: 0 <= k <= i ==> (k in g <==> k in f) && (k in g ==> g[k] == f[k])
  }

  /** Every file above suffix `i` is the one that had the suffix below. */
  ghost predicate ShiftedAbove(f: Files, g: Files, i: nat) {
    forall k: nat :: i < k <= ROTATE_FILES ==> (k in g <==> k - 1 in f) && (k in g ==> g[k] == f[k - 1])
  }

  /** What a complete rotation makes of the files. */
  ghost predicate IsShifted(f: Files, g: Files) {
    0 !in g && ShiftedAbove(f, g, 0)
  }

  /** File `i`, if it exists, has moved one suffix up. */
  ghost predicate Moved(f: Files, g: Files, i: nat) {
    g == if i in f then (f - {i})[i + 1 := f[i]] else f
  }

  /** The content of the live file; a missing one will be made. */
  function LiveOf(f: Files): seq<Byte> {
    if 0 in f then f[0] else []
  }

  /** A line behind the live file is an event in front of all others. */
  lemma LineIsNewest<E>(events: Reading<E>, f: Files, line: seq<Byte>, e: E)
    requires events(LiveOf(f) + line) == [e] + events(LiveOf(f)) && events([]) == []
    ensures Kept(events, f[0 := LiveOf(f) + line], 0) == [e] + Kept(events, f, 0)
  {
    var g := f[0 := LiveOf(f) + line];
    assert EventsOf(events, g, 0) == [e] + EventsOf(events, f, 0);
    KeptFront(events, f, g, [e]);
  }

  lemma LineKeepsOrder(f: Files, line: seq<Byte>)
    requires Sound(f) && line != [] && line[|line| - 1] == NEWLINE
    ensures var g := f[0 := LiveOf(f) + line]; Sound(g) && (Tidy(f) ==> Tidy(g))
  {
    var live := LiveOf(f) + line;
    assert live[|live| - 1] == line[|line| - 1];
  }

  lemma InFront<T>(x: T, s: seq<T>, t: seq<T>)
    requires s <= t
    ensures [x] + s <= [x] + t
  {
    assert t == s + t[|s|..];
    assert [x] + t == [x] + s + t[|s|..];
  }

  /** A line is added: to the live file, or to a new one if that was full, which is then file 1,
      as every other file has moved up. */
  ghost predicate LineAdded(f: Files, g: Files, line: seq<Byte>) {
    if |LiveOf(f)| < ROTATE_BYTES then g == f[0 := LiveOf(f) + line]
    else ShiftedAbove(f, g, 0) && 0 in g && g[0] == line && 1 in g && g[1] == f[0]
  }

  lemma AddedBehindRotation(f: Files, mid: Files, g: Files, line: seq<Byte>)
    requires g == mid[0 := LiveOf(mid) + line]
    requires if |LiveOf(f)| < ROTATE_BYTES then mid == f else IsShifted(f, mid)
    ensures LineAdded(f, g, line)
  {
    if |LiveOf(f)| >= ROTATE_BYTES {
      assert LiveOf(mid) + line == line;
      forall k: nat | 0 < k <= ROTATE_FILES
        ensures (k in g <==> k - 1 in f) && (k in g ==> g[k] == f[k - 1])
      {
        assert (k in g <==> k in mid) && (k in g ==> g[k] == mid[k]);
      }
      assert 1 - 1 in f;
    }
  }

  /** One step of a rotation that started from `f0`. */
  lemma ShiftStep(f0: Files, f: Files, g: Files, i: nat)
    requires SameUpTo(f0, f, i) && Moved(f, g, i)
    ensures i !in g
    ensures i > 0 ==> SameUpTo(f0, g, i - 1)
    ensures ShiftedAbove(f0, f, i + 1) && i + 1 !in f ==> ShiftedAbove(f0, g, i)
  {
  }

  /** Wherever the shift stops, at most the events of the oldest file are lost. */
  lemma RemovedThenShifted<E>(events: Reading<E>, f: Files, without: Files, shifted: Files)
    requires || without == f
             || (without == f - {ROTATE_FILES}
                 && Kept(events, f, 0) == Kept(events, without, 0) + EventsOf(events, f, ROTATE_FILES))
    requires LosesOldest(events, without, shifted)
    requires ROTATE_FILES !in without ==> Kept(events, shifted, 0) == Kept(events, without, 0)
    ensures LosesOldest(events, f, shifted)
  {
  }

  /** The steps of a rotation in which nothing fails. */
  lemma RotationShifts(f: Files, without: Files, shifted: Files, g: Files)
    requires without == f - {ROTATE_FILES} && SameUpTo(without, shifted, 0) && ShiftedAbove(without, shifted, 1)
    requires 1 !in shifted && Moved(shifted, g, 0)
    ensures IsShifted(f, g)
  {
    ShiftStep(without, shifted, g, 0);
  }

  /** The rotated files have no gaps and are full. */
  ghost predicate Tidy(f: Files) {
    && (forall i :: 1 <= i < ROTATE_FILES && i + 1 in f ==> i in f)
    && (forall i :: 1 <= i <= ROTATE_FILES && i in f ==> |f[i]| >= ROTATE_BYTES)
  }

  lemma TidyShift(f: Files, g: Files)
    requires Tidy(f) && 0 in f && |f[0]| >= ROTATE_BYTES && IsShifted(f, g)
    ensures Tidy(g) && (ROTATE_FILES in f ==> ROTATE_FILES in g)
  {
    forall i | 1 <= i < ROTATE_FILES && i + 1 in g
      ensures i in g
    {
      assert i in f;
      assert i > 1 ==> i - 1 + 1 in f;
    }
    if ROTATE_FILES in f {
      assert ROTATE_FILES - 1 + 1 in f;
    }
  }

  lemma TakeTake<T>(s: seq<T>, t: seq<T>, n: nat)
    requires |Take(s, n)| < n
    ensures Take(s, n) == s
    ensures Take(s, n) + Take(t, n - |Take(s, n)|) == Take(s + t, n)
  {
  }

  lemma EmptyFile<E>(decode: Decoder<E>)
    ensures FileEvents(decode, []) == []
  {
    var none: seq<Byte> := [];
    NewestLast(decode, [], none);
    assert [] + [none] == Split([], NEWLINE);
  }

  /** Renaming to a free suffix loses nothing; renaming over a file loses its events. */
  lemma MoveOver<E>(events: Reading<E>, f: Files, g: Files, from: nat)
    requires from < ROTATE_FILES && from in f && g == (f - {from})[from + 1 := f[from]]
    requires from + 1 in f ==> from + 1 == ROTATE_FILES
    ensures from + 1 !in f ==> Kept(events, f, 0) == Kept(events, g, 0)
    ensures from + 1 in f ==> Kept(events, f, 0) == Kept(events, g, 0) + EventsOf(events, f, from + 1)
  {
    if from + 1 in f {
      var h := f - {ROTATE_FILES};
      KeptDrop(events, f, h, 0);
      assert g == (h - {from})[from + 1 := h[from]];
      KeptMove(events, h, g, 0, from);
    } else {
      KeptMove(events, f, g, 0, from);
    }
  }

  /** More events in the live file. */
  lemma KeptFront<E>(events: Reading<E>, f: Files, g: Files, added: seq<E>)
    requires EventsOf(events, g, 0) == added + EventsOf(events, f, 0)
    requires forall k: nat :: 1 <= k <= ROTATE_FILES ==> EventsOf(events, g, k) == EventsOf(events, f, k)
    ensures Kept(events, g, 0) == added + Kept(events, f, 0)
  {
    KeptSame(events, f, g, 1);
    Assoc(added, EventsOf(events, f, 0), Kept(events, f, 1));
  }

  lemma {:induction false} KeptNothing<E>(events: Reading<E>, f: Files, i: nat)
    requires f == map[]
    ensures Kept(events, f, i) == []
    decreases ROTATE_FILES + 1 - i
  {
    if i <= ROTATE_FILES {
      KeptNothing(events, f, i + 1);
    }
  }
}
