/**
 Restoring panel data from a backup, `internal/server/backup.go`: staged roots are
 swapped into place one by one, with an explicit commit and rollback.  Every file
 operation may fail at any time; a failed recursive removal may leave anything behind
 at the path it was asked to remove.
 */
module StagedRestore {
  import opened Prelude
  import opened ConfigRuns

  /** The places one data root can be: unpacked from the backup, in use, set aside. */
  datatype Place = Staged(root: nat) | Data(root: nat) | Aside(root: nat)

  /** Nothing but the given paths has changed. */
  ghost predicate SameBut<T>(before: map<Place, T>, now: map<Place, T>, paths: set<Place>) {
    forall p :: p !in paths ==> (p in now <==> p in before) && (p in now ==> now[p] == before[p])
  }

  datatype Lookup = Found | Absent | Unreadable

  class DataDisk<T(0)> {
    var entries: map<Place, T>

    /** How many operations have failed so far. */
    ghost var failures: nat

    constructor (entries: map<Place, T>)
      ensures this.entries == entries && failures == 0
    {
      this.entries, failures := entries, 0;
    }

    method Lstat(p: Place) returns (r: Lookup)
      modifies this`failures
      ensures r == Found ==> p in entries
      ensures r == Absent ==> p !in entries
      ensures failures == old(failures) + (if r == Unreadable then 1 else 0)
    {
      if * {
        failures := failures + 1;
        return Unreadable;
      }
      r := if p in entries then Found else Absent;
    }

    method MkdirAll() returns (ok: bool)
      modifies this`failures
      ensures failures == old(failures) + (if ok then 0 else 1)
    {
      if * {
        failures := failures + 1;
        return false;
      }
      return true;
    }

    /** Makes an empty directory under a new name, for the contents set aside from now on. */
    method MkdirTemp() returns (ok: bool)
      modifies this
      ensures entries == if ok then map p | p in old(entries) && !p.Aside? :: old(entries)[p] else old(entries)
      ensures failures == old(failures) + (if ok then 0 else 1)
    {
      if * {
        failures := failures + 1;
        return false;
      }
      entries := map p | p in entries && !p.Aside? :: entries[p];
      return true;
    }

    method Rename(from: Place, to: Place) returns (ok: bool)
      modifies this
      ensures ok ==> from in old(entries) && entries == (old(entries) - {from})[to := old(entries)[from]]
      ensures !ok ==> entries == old(entries)
      ensures from in old(entries) ==> failures == old(failures) + (if ok then 0 else 1)
      ensures failures >= old(failures)
    {
      if * {
        failures := failures + 1;
        return false;
      }
      if from !in entries {
        return false;
      }
      entries := (entries - {from})[to := entries[from]];
      return true;
    }

    method RemoveAll(p: Place) returns (ok: bool)
      modifies this
      ensures ok ==> entries == old(entries) - {p}
      ensures SameBut(old(entries), entries, {p})
      ensures failures == old(failures) + (if ok then 0 else 1)
    {
      if * {
        failures := failures + 1;
        if p in entries {
          var rest: T := *;
          entries := entries[p := rest];
        }
        return false;
      }
      entries := entries - {p};
      return true;
    }

    /** Removes the directory of what was set aside; on failure anything may be left there. */
    method RemoveAside() returns (ok: bool)
      modifies this
      ensures forall p :: p in entries ==> p in old(entries)
      ensures forall p :: p in old(entries) && !p.Aside? ==> p in entries && entries[p] == old(entries)[p]
      ensures ok ==> forall p :: p in entries ==> !p.Aside?
      ensures failures == old(failures) + (if ok then 0 else 1)
    {
      if * {
        failures := failures + 1;
        return false;
      }
      entries := map p | p in entries && !p.Aside? :: entries[p];
      return true;
    }
  }

  datatype Move = Move(root: nat, hadOld: bool, installed: bool)

  // ----- States of a swap that began in `init` -----

  /** The root has its content of `init`. */
  ghost predicate Same<T>(init: map<Place, T>, now: map<Place, T>, root: nat) {
    (Data(root) in now <==> Data(root) in init) && (Data(root) in init ==> now[Data(root)] == init[Data(root)])
  }

  /** The root has the staged content, if there was any. */
  ghost predicate Replaced<T>(init: map<Place, T>, now: map<Place, T>, root: nat) {
    if Staged(root) in init then Data(root) in now && now[Data(root)] == init[Staged(root)] else Same(init, now, root)
  }

  /** Every root has its content of `init`. */
  ghost predicate Restored<T>(init: map<Place, T>, now: map<Place, T>) {
    forall root: nat :: Same(init, now, root)
  }

  lemma RestoredTwice<T>(init: map<Place, T>, mid: map<Place, T>, now: map<Place, T>)
    requires Restored(init, mid) && Restored(mid, now)
    ensures Restored(init, now)
  {
    forall root: nat
      ensures Same(init, now, root)
    {
      assert Same(init, mid, root) && Same(mid, now, root);
    }
  }

  /** The root had content, and that is in neither place now. */
  ghost predicate Gone<T>(init: map<Place, T>, now: map<Place, T>, root: nat) {
    Data(root) in init && Data(root) !in now && Aside(root) !in now
  }

  /** Every other root has its content of `init`; what this one had, if anything, is gone. */
  ghost predicate LostAt<T>(init: map<Place, T>, now: map<Place, T>, one: nat) {
    && (forall root: nat :: root != one ==> Same(init, now, root))
    && (Data(one) in init ==> Gone(init, now, one))
  }

  /** No root has changed, or one alone has lost its content. */
  ghost predicate OneLostAtMost<T>(init: map<Place, T>, now: map<Place, T>) {
    Restored(init, now) || exists one: nat :: LostAt(init, now, one)
  }

  /** The one root in `lost`, if any, has nothing in place of the content it had. */
  ghost predicate Emptied<T>(init: map<Place, T>, now: map<Place, T>, lost: set<nat>) {
    lost == {} || exists one :: lost == {one} && (Data(one) in init ==> Data(one) !in now)
  }

  /** What was set aside is removed behind a rollback. */
  lemma AsideRemoved<T>(init: map<Place, T>, put: map<Place, T>, now: map<Place, T>, lost: set<nat>)
    requires forall root: nat :: root !in lost ==> Same(init, put, root)
    requires forall p :: p in now ==> p in put
    requires forall p :: p in put && !p.Aside? ==> p in now && now[p] == put[p]
    ensures forall root: nat :: root !in lost ==> Same(init, now, root)
    ensures Emptied(init, put, lost) && (forall p :: p in now ==> !p.Aside?) ==> OneLostAtMost(init, now)
  {
    forall root: nat | root !in lost
      ensures Same(init, now, root)
    {
      assert Same(init, put, root);
    }
    if Emptied(init, put, lost) && (forall p :: p in now ==> !p.Aside?) && lost != {} {
      var one :| lost == {one} && (Data(one) in init ==> Data(one) !in put);
      assert LostAt(init, now, one);
    }
  }

  lemma OneLostLater<T>(init: map<Place, T>, mid: map<Place, T>, now: map<Place, T>)
    requires Restored(init, mid) && OneLostAtMost(mid, now)
    ensures OneLostAtMost(init, now)
  {
    if Restored(mid, now) {
      RestoredTwice(init, mid, now);
    } else {
      var one: nat :| LostAt(mid, now, one);
      forall root: nat | root != one
        ensures Same(init, now, root)
      {
        assert Same(init, mid, root) && Same(mid, now, root);
      }
      assert Same(init, mid, one);
      assert LostAt(init, now, one);
    }
  }

  /** What a recorded move says about the disk. */
  ghost predicate Undoable<T>(init: map<Place, T>, now: map<Place, T>, m: Move) {
    && (m.hadOld <==> Data(m.root) in init)
    && (m.hadOld ==> Aside(m.root) in now && now[Aside(m.root)] == init[Data(m.root)])
    && (!m.installed ==> Data(m.root) !in now)
  }

  ghost predicate Moved(moves: seq<Move>, root: nat) {
    exists i :: 0 <= i < |moves| && moves[i].root == root
  }

  lemma MovedAppend(moves: seq<Move>, m: Move, root: nat)
    ensures Moved(moves + [m], root) <==> Moved(moves, root) || root == m.root
  {
    if Moved(moves, root) {
      var i :| 0 <= i < |moves| && moves[i].root == root;
      assert (moves + [m])[i].root == root;
    }
    assert (moves + [m])[|moves|] == m;
  }

  /** Every root that is not as it was is recorded, and no root twice. */
  ghost predicate Recorded<T>(init: map<Place, T>, now: map<Place, T>, moves: seq<Move>) {
    && (forall i :: 0 <= i < |moves| ==> Undoable(init, now, moves[i]))
    && (forall i, j :: 0 <= i < j < |moves| ==> moves[i].root != moves[j].root)
    && (forall root: nat :: !Moved(moves, root) ==> Same(init, now, root))
  }

  /** What the commit and rollback functions of one installation share. */
  class Installation<T(0)> {
    const disk: DataDisk<T>
    var moves: seq<Move>
    var done: bool

    /** The disk before the installation. */
    ghost const init: map<Place, T>

    constructor (disk: DataDisk<T>)
      ensures this.disk == disk && moves == [] && !done && init == disk.entries
    {
      this.disk, moves, done, init := disk, [], false, disk.entries;
    }

    ghost predicate Open()
      reads this, disk
    {
      !done && Recorded(init, disk.entries, moves)
    }

    /** Undoes one move.  Without a failure the root is as it was; it is too if only the removal
        of what replaced its content fails.  If the rename fails the old content stays aside. */
    method Undo(m: Move) returns (ok: bool, ghost back: bool)
      requires Undoable(init, disk.entries, m)
      modifies disk
      ensures disk.failures >= old(disk.failures)
      ensures ok <==> disk.failures == old(disk.failures)
      ensures ok ==> back
      ensures back ==> Same(init, disk.entries, m.root)
      ensures !back && m.hadOld ==> Aside(m.root) in disk.entries && disk.entries[Aside(m.root)] == init[Data(m.root)]
      ensures !back && m.hadOld && disk.failures == old(disk.failures) + 1 ==> Data(m.root) !in disk.entries
      ensures SameBut(old(disk.entries), disk.entries, {Data(m.root), Aside(m.root)})
    {
      ok := true;
      if m.installed {
        ok := disk.RemoveAll(Data(m.root));
      }
      back := ok;
      if m.hadOld {
        var renamed := disk.Rename(Aside(m.root), Data(m.root));
        ok, back := ok && renamed, renamed;
      }
    }

    /** Puts back what was replaced, last move first; at most once, and not after a commit.
        Every root is as before except those that were not put back; and since what was set
        aside is removed in any case, the content of those is gone. */
    method Rollback() returns (ok: bool, ghost lost: set<nat>)
      requires !done ==> Open()
      modifies this`done, disk
      ensures done && disk.failures >= old(disk.failures)
      ensures old(done) ==> ok && lost == {} && disk.entries == old(disk.entries) && disk.failures == old(disk.failures)
      ensures ok <==> disk.failures == old(disk.failures)
      ensures ok ==> lost == {}
      ensures !old(done) ==> forall root: nat :: root !in lost ==> Same(init, disk.entries, root)
      ensures !old(done) && ok ==> Restored(init, disk.entries) && forall p :: p in disk.entries ==> !p.Aside?
      ensures !old(done) && disk.failures == old(disk.failures) + 1 ==>
                OneLostAtMost(init, disk.entries)
      ensures forall root :: root in lost ==> Moved(moves, root)
    {
      lost := {};
      if done {
        return true, {};
      }
      done := true;
      ok := true;
      var i := |moves|;
      while i > 0
        invariant 0 <= i <= |moves| && done
        invariant forall k :: 0 <= k < i ==> Undoable(init, disk.entries, moves[k]) && moves[k].root !in lost
        invariant forall k :: i <= k < |moves| && moves[k].root !in lost ==> Same(init, disk.entries, moves[k].root)
        invariant forall root: nat :: !Moved(moves, root) ==> Same(init, disk.entries, root)
        invariant forall root :: root in lost ==> Moved(moves, root)
        invariant disk.failures >= old(disk.failures)
        invariant ok <==> disk.failures == old(disk.failures)
        invariant ok ==> lost == {}
        invariant disk.failures == old(disk.failures) + 1 ==> Emptied(init, disk.entries, lost)
      {
        i := i - 1;
        var undone, back := Undo(moves[i]);
        ok := ok && undone;
        if !back {
          lost := lost + {moves[i].root};
        }
      }
      forall root: nat | root !in lost
        ensures Same(init, disk.entries, root)
      {
        if Moved(moves, root) {
          var k :| 0 <= k < |moves| && moves[k].root == root;
        }
      }
      ghost var put := disk.entries;
      var removed := disk.RemoveAside();
      ok := ok && removed;
      AsideRemoved(init, put, disk.entries, lost);
    }

    /** Gives up what was set aside; at most once, and not after a rollback. */
    method Commit() returns (ok: bool)
      modifies this`done, disk
      ensures done && disk.failures >= old(disk.failures)
      ensures old(done) ==> ok && disk.entries == old(disk.entries)
      ensures ok <==> disk.failures == old(disk.failures)
      ensures ok && !old(done) ==> forall p :: p in disk.entries ==> !p.Aside?
      ensures Restored(old(disk.entries), disk.entries)
    {
      if done {
        return true;
      }
      done := true;
      ok := disk.RemoveAside();
    }

    /** One pass of the installation loop: sets the old content of a root aside and moves the
        staged one in.  Wherever it stops, what it did is recorded. */
    method InstallRoot(root: nat) returns (ok: bool)
      requires Open() && !Moved(moves, root) && Aside(root) !in disk.entries
      modifies this`moves, disk
      ensures Open() && disk.failures == old(disk.failures) + (if ok then 0 else 1)
      ensures SameBut(old(disk.entries), disk.entries, {Staged(root), Data(root), Aside(root)})
      ensures Staged(root) !in old(disk.entries) ==> disk.entries == old(disk.entries) && moves == old(moves)
      ensures ok && Staged(root) in old(disk.entries) ==>
                && Data(root) in disk.entries && disk.entries[Data(root)] == old(disk.entries)[Staged(root)]
                && Moved(moves, root)
      ensures forall r :: r != root ==> (Moved(moves, r) <==> Moved(old(moves), r))
    {
      var staged := disk.Lstat(Staged(root));
      if staged == Absent {
        return true;
      } else if staged == Unreadable {
        return false;
      }
      var move := Move(root, false, false);
      var target := disk.Lstat(Data(root));
      if target == Found {
        var made := disk.MkdirAll();
        if !made {
          return false;
        }
        var aside := disk.Rename(Data(root), Aside(root));
        if !aside {
          return false;
        }
        move := move.(hadOld := true);
      } else if target == Unreadable {
        return false;
      }
      var made := disk.MkdirAll();
      if !made {
        Record(move);
        return false;
      }
      var installed := disk.Rename(Staged(root), Data(root));
      if !installed {
        Record(move);
        return false;
      }
      Record(move.(installed := true));
      return true;
    }

    /** Adds a move to the list. */
    method Record(m: Move)
      requires !done && !Moved(moves, m.root) && Undoable(init, disk.entries, m)
      requires forall i :: 0 <= i < |moves| ==> Undoable(init, disk.entries, moves[i])
      requires forall i, j :: 0 <= i < j < |moves| ==> moves[i].root != moves[j].root
      requires forall root: nat :: !Moved(moves, root) && root != m.root ==> Same(init, disk.entries, root)
      modifies this`moves
      ensures moves == old(moves) + [m] && Open()
      ensures forall r :: Moved(moves, r) <==> Moved(old(moves), r) || r == m.root
    {
      ghost var before := moves;
      moves := moves + [m];
      forall root
        ensures Moved(moves, root) <==> Moved(before, root) || root == m.root
      {
        MovedAppend(before, m, root);
      }
    }
  }

  /** The data roots a backup holds. */
  const ROOTS: nat := 11

  /** Every data root has the staged content if there was any, and nothing else changed. */
  ghost predicate Swapped<T>(init: map<Place, T>, now: map<Place, T>) {
    forall root: nat :: if root < ROOTS then Replaced(init, now, root) else Same(init, now, root)
  }

  /** The loop has not reached the root. */
  ghost predicate Waiting<T>(init: map<Place, T>, now: map<Place, T>, root: nat) {
    && Same(init, now, root)
    && Aside(root) !in now
    && (Staged(root) in now <==> Staged(root) in init)
    && (Staged(root) in now ==> now[Staged(root)] == init[Staged(root)])
  }

  lemma OneRoot<T>(init: map<Place, T>, mid: map<Place, T>, now: map<Place, T>, one: nat)
    requires SameBut(mid, now, {Staged(one), Data(one), Aside(one)})
    ensures forall root: nat :: root != one && Waiting(init, mid, root) ==> Waiting(init, now, root)
    ensures forall root: nat :: root != one && Replaced(init, mid, root) ==> Replaced(init, now, root)
  {
  }

  lemma SwappedStays<T>(init: map<Place, T>, mid: map<Place, T>, now: map<Place, T>)
    requires Swapped(init, mid) && Restored(mid, now)
    ensures Swapped(init, now)
  {
    forall root: nat
      ensures if root < ROOTS then Replaced(init, now, root) else Same(init, now, root)
    {
      assert Same(mid, now, root);
      assert if root < ROOTS then Replaced(init, mid, root) else Same(init, mid, root);
    }
  }

  /** Swaps every staged root in.  At the first failure what was done is undone: if nothing
      fails after it, every root is as before, whichever operation it was; one more failure
      costs the content of at most one root. */
  method InstallRestoredData<T(0)>(disk: DataDisk<T>) returns (installation: Option<Installation<T>>)
    modifies disk
    ensures installation.Some? <==> disk.failures == old(disk.failures)
    ensures disk.failures >= old(disk.failures)
    ensures installation.None? && disk.failures == old(disk.failures) + 1 ==> Restored(old(disk.entries), disk.entries)
    ensures installation.None? && disk.failures == old(disk.failures) + 2 ==>
              OneLostAtMost(old(disk.entries), disk.entries)
    ensures installation.Some? ==>
              && fresh(installation.value) && installation.value.disk == disk && installation.value.Open()
              && Swapped(old(disk.entries), disk.entries)
              && Restored(old(disk.entries), installation.value.init)
  {
    var made := disk.MkdirTemp();
    if !made {
      return None;
    }
    var swap := new Installation(disk);
    var i := 0;
    while i < ROOTS
      invariant 0 <= i <= ROOTS && fresh(swap) && swap.disk == disk && swap.Open()
      invariant disk.failures == old(disk.failures)
      invariant Restored(old(disk.entries), swap.init)
      invariant forall root: nat :: root >= i ==>
                  Waiting(old(disk.entries), disk.entries, root) && !Moved(swap.moves, root)
      invariant forall root: nat :: root < i ==> Replaced(old(disk.entries), disk.entries, root)
    {
      ghost var before := disk.entries;
      var installed := swap.InstallRoot(i);
      if !installed {
        var undone, lost := swap.Rollback();
        if undone {
          RestoredTwice(old(disk.entries), swap.init, disk.entries);
        }
        if OneLostAtMost(swap.init, disk.entries) {
          OneLostLater(old(disk.entries), swap.init, disk.entries);
        }
        return None;
      }
      OneRoot(old(disk.entries), before, disk.entries, i);
      i := i + 1;
    }
    forall root: nat | root >= ROOTS
      ensures Same(old(disk.entries), disk.entries, root)
    {
      assert Waiting(old(disk.entries), disk.entries, root);
    }
    return Some(swap);
  }

  /** The configuration in use and its file. */
  class Panel<C> {
    var live: C
    var file: C

    constructor (config: C)
      ensures live == config && file == config
    {
      live, file := config, config;
    }

    ghost function State(): State<C>
      reads this
    {
      ConfigRuns.State(live, file)
    }

    /** Replaces the file of the configuration, or fails. */
    method Save<T(0)>(disk: DataDisk<T>, config: C) returns (ok: bool)
      modifies this`file, disk`failures
      ensures file == if ok then config else old(file)
      ensures disk.failures == old(disk.failures) + (if ok then 0 else 1)
    {
      if * {
        disk.failures := disk.failures + 1;
        return false;
      }
      file := config;
      return true;
    }

    /** What other requests do meanwhile. */
    method Meanwhile(steps: seq<Step<C>>)
      modifies this
      ensures State() == Run(old(State()), steps)
      decreases |steps|
    {
      if steps != [] {
        var next := Next(ConfigRuns.State(live, file), steps[0]);
        live, file := next.live, next.file;
        Meanwhile(steps[1..]);
      }
    }

    /** Restores data and configuration together.  Success means that the data and the
        configuration in use are the new ones; so is the file, unless a step of another request
        between the save and the assignment, which is not under the same lock, has replaced it.
        An error changes no configuration, and no data unless something failed while it was put
        back; one such failure costs the content of at most one root, for good. */
    method BackupImport<T(0)>(disk: DataDisk<T>, restored: C, between: seq<Step<C>>) returns (ok: bool)
      modifies this, disk
      ensures State() == if ok then ImportRun(old(State()), restored, between) else old(State())
      ensures ok ==> live == restored && Swapped(old(disk.entries), disk.entries)
      ensures disk.failures == old(disk.failures) ==> ok && forall p :: p in disk.entries ==> !p.Aside?
      ensures !ok && disk.failures == old(disk.failures) + 1 ==> Restored(old(disk.entries), disk.entries)
      ensures !ok && disk.failures == old(disk.failures) + 2 ==>
                OneLostAtMost(old(disk.entries), disk.entries)
    {
      var installation := InstallRestoredData(disk);
      if installation.None? {
        return false;
      }
      var stored := Save(disk, restored);
      if !stored {
        var undone, lost := installation.value.Rollback();
        if undone {
          RestoredTwice(old(disk.entries), installation.value.init, disk.entries);
        }
        if OneLostAtMost(installation.value.init, disk.entries) {
          OneLostLater(old(disk.entries), installation.value.init, disk.entries);
        }
        return false;
      }
      Meanwhile(between);
      live := restored;
      ghost var swapped := disk.entries;
      var cleaned := installation.value.Commit();
      SwappedStays(old(disk.entries), swapped, disk.entries);
      return true;
    }
  }
}
