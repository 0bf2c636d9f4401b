/**
 Restoring the items of a snapshot, `Restore` and `restoreItem` of
 `internal/snapshots/manager.go`: keeping what is there, putting the items in its place, and
 putting it back when that fails half way.
 */
module SnapshotRestore {
  import opened Prelude
  import opened FileTree
  import opened TreeCopy
  import opened TreeRollback
  import opened SnapshotItems

  ghost function Originals(items: seq<Item>): seq<Path> {
    seq(|items|, i requires 0 <= i < |items| => items[i].original)
  }

  /** No item's path meets the directory of the snapshots. */
  ghost predicate WellPlaced(items: seq<Item>, root: Path) {
    forall i :: 0 <= i < |items| ==> items[i].original != [] && Apart(items[i].original, root)
  }

  /** No item's path is inside another's. */
  ghost predicate Scattered(paths: seq<Path>) {
    forall i, j :: 0 <= i < |paths| && 0 <= j < |paths| && i != j ==> Apart(paths[i], paths[j])
  }

  ghost predicate Beside(r: Path, paths: seq<Path>) {
    forall i :: 0 <= i < |paths| ==> Apart(r, paths[i])
  }

  // ----- Before a restore: keeping what is there -----

  /** Paths, and copies beside them. */
  ghost predicate Separate(saved: seq<Saved>) {
    && (forall i :: 0 <= i < |saved| ==> saved[i].path != [])
    && (forall i, j :: 0 <= i < |saved| && 0 <= j < |saved| ==> Apart(saved[i].path, saved[j].stored))
  }

  /** What is at the paths of the items can be copied. */
  ghost predicate AllKeepable(n: Node, items: seq<Item>) {
    forall i :: 0 <= i < |items| ==> Storable(n, items[i].original)
  }

  /** Copies what is at the paths of the items into the new directory `temp`. */
  method Capture(disk: Disk, items: seq<Item>, root: Path, temp: Path) returns (saved: seq<Saved>, ok: bool)
    requires disk.root.Dir? && temp != [] && root <= temp && WellPlaced(items, root)
    requires IsDir(disk.root, temp) && Find(disk.root, temp).node.kids == map[]
    modifies disk
    ensures Confined(old(disk.root), disk.root, temp)
    ensures disk.Counted(ok, !AllKeepable(old(disk.root), items))
    ensures ok ==> AllKeepable(old(disk.root), items)
    ensures ok ==> |saved| == |items| && Separate(saved)
    ensures ok ==> forall i :: 0 <= i < |saved| ==>
                     && saved[i].path == items[i].original && temp <= saved[i].stored
                     && Kept(old(disk.root), disk.root, saved[i])
  {
    saved := [];
    NoNumberYet(disk.root, temp);
    for i := 0 to |items|
      invariant Confined(old(disk.root), disk.root, temp) && IsDir(disk.root, temp)
      invariant disk.errors == old(disk.errors) && disk.faults == old(disk.faults)
      invariant |saved| == i
      invariant forall j :: 0 <= j < i ==>
                  && saved[j].path == items[j].original && saved[j].stored == temp + [Number(j)]
                  && Kept(old(disk.root), disk.root, saved[j])
      invariant forall j: nat :: j >= i ==> Find(disk.root, temp + [Number(j)]) == Missing
    {
      ghost var before := disk.root;
      InsideApart(items[i].original, root, temp);
      var one, size, kept := CaptureOne(disk, items[i].original, temp, Number(i));
      assert Storable(before, items[i].original) <==> Storable(old(disk.root), items[i].original);
      if !kept {
        return [], false;
      }
      OthersStay(before, disk.root, temp, i);
      ConfinedTwice(old(disk.root), before, disk.root, temp);
      saved := saved + [one];
    }
    forall i, j | 0 <= i < |saved| && 0 <= j < |saved|
      ensures Apart(saved[i].path, saved[j].stored)
    {
      InsideApart(items[i].original, root, saved[j].stored);
    }
    return saved, true;
  }

  // ----- Going back -----

  /** The copy of what was at the path is there, and can be copied. */
  ghost predicate Held(n: Node, s: Saved) {
    s.present ==>
      && Find(n, s.stored).Found?
      && Copyable(Find(n, s.stored).node) && s.info == InfoOf(Find(n, s.stored).node)
  }

  ghost function Wanted(n: Node, s: Saved): Lookup {
    if s.present then PlainLookup(Find(n, s.stored)) else Missing
  }

  /** A kept copy can be copied back, and looks like the original. */
  lemma KeptIsHeld(before: Node, now: Node, s: Saved)
    requires Kept(before, now, s)
    ensures Held(now, s) && Wanted(now, s) == PlainLookup(Find(before, s.path))
  {
    if s.present {
      PlainTwice(Find(before, s.path).node);
    }
  }

  /** One pass of the rollback. */
  method PutOneBack(disk: Disk, s: Saved)
    requires disk.root.Dir? && s.path != [] && Apart(s.path, s.stored) && Held(disk.root, s)
    modifies disk
    ensures disk.root.Dir? && Confined(old(disk.root), disk.root, s.path)
    ensures disk.errors - old(disk.errors) >= disk.faults - old(disk.faults) >= 0
    ensures disk.faults == old(disk.faults) && old(Find(disk.root, s.path)) != NotDir ==>
              disk.errors == old(disk.errors) && Find(disk.root, s.path) == Wanted(old(disk.root), s)
    ensures disk.faults == old(disk.faults) && !s.present && old(Find(disk.root, s.path)) == Missing ==>
              disk.root == old(disk.root)
  {
    assert IsDir(disk.root, []);
    var removed := disk.RemoveAll(s.path);
    assert IsDir(disk.root, []);
    if s.present {
      ghost var mid := disk.root;
      assert Find(disk.root, s.stored) == Find(old(disk.root), s.stored);
      var size, ok := CopyEntry(disk, s.stored, s.path, s.info);
      ConfinedTwice(old(disk.root), mid, disk.root, s.path);
    }
  }

  /** The rollback of a restore, which ignores errors.  Without a fault every path is as in
      `first`, even if it is inside another or some restored item is in its way when its turn
      comes; if no path is inside another, there is no error at all. */
  method PutBack(disk: Disk, saved: seq<Saved>, ghost first: Node, ghost paths: seq<Path>, ghost root: Path)
    requires disk.root.Dir? && Separate(saved) && |paths| == |saved|
    requires forall i :: 0 <= i < |saved| ==>
               && saved[i].path == paths[i] && Apart(paths[i], root) && Find(first, paths[i]) != NotDir
               && Held(disk.root, saved[i]) && Wanted(disk.root, saved[i]) == PlainLookup(Find(first, paths[i]))
    requires Intact(first, disk.root, paths, root)
    modifies disk
    ensures disk.root.Dir? && disk.errors - old(disk.errors) >= disk.faults - old(disk.faults) >= 0
    ensures disk.faults == old(disk.faults) ==> forall i :: 0 <= i < |paths| ==> Undone(first, disk.root, paths[i])
    ensures disk.faults == old(disk.faults) && Scattered(paths)
            && (forall i :: 0 <= i < |paths| ==> old(Find(disk.root, paths[i])) != NotDir) ==>
              disk.errors == old(disk.errors)
    ensures forall r :: Beside(r, paths) ==> Find(disk.root, r) == Find(old(disk.root), r)
  {
    ghost var easy := Scattered(paths) && forall i :: 0 <= i < |paths| ==> Find(disk.root, paths[i]) != NotDir;
    forall j | 0 <= j < |saved|
      ensures Beside(saved[j].stored, paths)
    {
    }
    assert Progress(first, disk.root, paths, 0);
    for i := 0 to |saved|
      invariant disk.root.Dir?
      invariant disk.errors - old(disk.errors) >= disk.faults - old(disk.faults) >= 0
      invariant forall r :: Beside(r, paths) ==> Find(disk.root, r) == Find(old(disk.root), r)
      invariant disk.faults == old(disk.faults) ==>
                  Progress(first, disk.root, paths, i) && Intact(first, disk.root, paths, root)
      invariant disk.faults == old(disk.faults) && easy ==>
                  && disk.errors == old(disk.errors)
                  && forall j :: i <= j < |paths| ==> Find(disk.root, paths[j]) != NotDir
    {
      ghost var before, faults := disk.root, disk.faults;
      assert Find(before, saved[i].stored) == Find(old(disk.root), saved[i].stored);
      PutOneBack(disk, saved[i]);
      BesideStays(before, disk.root, paths, i);
      if disk.faults == old(disk.faults) {
        StepProgress(first, before, disk.root, paths, root, i);
        StaysIntact(first, before, disk.root, paths, root, i);
      }
    }
  }

  lemma BesideStays(before: Node, now: Node, paths: seq<Path>, i: nat)
    requires i < |paths| && Confined(before, now, paths[i])
    ensures forall r :: Beside(r, paths) ==> Find(now, r) == Find(before, r)
    ensures Scattered(paths) ==>
              forall j :: 0 <= j < |paths| && j != i ==> Find(now, paths[j]) == Find(before, paths[j])
  {
  }

  // ----- Restoring -----

  /** The snapshot has a copy of the item that can be copied, or none is needed. */
  ghost predicate Available(n: Node, dir: Path, item: Item) {
    item.present ==> Find(n, StoredAt(dir, item)).Found? && Copyable(Find(n, StoredAt(dir, item)).node)
  }

  ghost predicate AllAvailable(n: Node, dir: Path, items: seq<Item>) {
    forall i :: 0 <= i < |items| ==> Available(n, dir, items[i])
  }

  /** Nothing in the tree stands in the way of a restore. */
  ghost predicate Restorable(n: Node, dir: Path, items: seq<Item>) {
    AllKeepable(n, items) && AllAvailable(n, dir, items)
  }

  /** What a restored item looks like, given the directory of its snapshot. */
  ghost function Target(n: Node, dir: Path, item: Item): Lookup {
    if item.present then PlainLookup(Find(n, StoredAt(dir, item))) else Missing
  }

  ghost predicate IsRestored(before: Node, now: Node, dir: Path, item: Item) {
    Available(before, dir, item) && Find(now, item.original) == Target(before, dir, item)
  }

  /** The snapshot was taken of the tree `taken`. */
  ghost predicate TakenFrom(taken: Node, n: Node, dir: Path, items: seq<Item>) {
    forall i :: 0 <= i < |items| ==>
      && Find(taken, items[i].original) != NotDir
      && Target(n, dir, items[i]) == PlainLookup(Find(taken, items[i].original))
  }

  /** `restoreItem`. */
  method RestoreItem(disk: Disk, dir: Path, item: Item) returns (ok: bool)
    requires disk.root.Dir? && item.original != [] && Apart(item.original, dir)
    modifies disk
    ensures disk.root.Dir? && Confined(old(disk.root), disk.root, item.original)
    ensures disk.Counted(ok, !(Find(old(disk.root), item.original) != NotDir && Available(old(disk.root), dir, item)))
    ensures ok ==> IsRestored(old(disk.root), disk.root, dir, item) && IsDir(disk.root, Parent(item.original))
  {
    var stored := StoredAt(dir, item);
    InsideApart(item.original, dir, stored);
    assert IsDir(disk.root, []);
    ok := ParentOf(disk, item.original);
    assert IsDir(disk.root, []);
    if !ok {
      return;
    }
    ghost var mid := disk.root;
    ok := disk.RemoveAll(item.original);
    ConfinedTwice(old(disk.root), mid, disk.root, item.original);
    if !ok || !item.present {
      return;
    }
    var stat := disk.Lstat(stored);
    if !stat.Exists? {
      if stat.NotExist? {
        disk.Fail();
      }
      return false;
    }
    mid := disk.root;
    assert Find(mid, stored) == Find(old(disk.root), stored);
    var size;
    size, ok := CopyEntry(disk, stored, item.original, stat.info);
    ConfinedTwice(old(disk.root), mid, disk.root, item.original);
  }

  /** No later path meets the `i`-th. */
  ghost predicate LastThere(paths: seq<Path>, i: nat, n: nat)
    requires i < n <= |paths|
  {
    forall j :: i < j < n ==> Apart(paths[i], paths[j])
  }

  /** What has been restored so far and met by nothing since. */
  ghost predicate AllRestored(before: Node, now: Node, dir: Path, items: seq<Item>, n: nat)
    requires n <= |items|
  {
    forall i :: 0 <= i < n && LastThere(Originals(items), i, n) ==> IsRestored(before, now, dir, items[i])
  }

  lemma RestoredStays(first: Node, before: Node, now: Node, dir: Path, items: seq<Item>, i: nat)
    requires i < |items| && AllRestored(first, before, dir, items, i)
    requires Confined(before, now, items[i].original) && IsRestored(first, now, dir, items[i])
    ensures AllRestored(first, now, dir, items, i + 1)
  {
    var paths := Originals(items);
    forall j | 0 <= j < i + 1 && LastThere(paths, j, i + 1)
      ensures IsRestored(first, now, dir, items[j])
    {
      if j < i {
        assert LastThere(paths, j, i) && Apart(paths[j], paths[i]);
      }
    }
  }

  /** Nothing but the items' paths has changed, and missing directories above them. */
  ghost predicate Framed(first: Node, now: Node, root: Path, paths: seq<Path>) {
    && Intact(first, now, paths, root)
    && forall r :: Beside(r, paths) ==> Find(now, r) == Find(first, r)
  }

  /** The first `i` items have been restored. */
  ghost predicate Forward(first: Node, now: Node, dir: Path, items: seq<Item>, taken: Node, i: nat)
    requires i <= |items|
  {
    && (forall j :: 0 <= j < i ==> Available(first, dir, items[j]))
    && AllRestored(first, now, dir, items, i)
    && (TakenFrom(taken, first, dir, items) && Harmless(taken, Originals(items)) ==>
          Advanced(taken, now, Originals(items), i))
    && Made(now, Originals(items), i)
    && (Unhindered(first, Originals(items)) ==> Unhindered(now, Originals(items)))
  }

  /** The paths do not meet, and nothing is in the way of one. */
  ghost predicate Unhindered(n: Node, paths: seq<Path>) {
    Scattered(paths) && forall i :: 0 <= i < |paths| ==> Find(n, paths[i]) != NotDir
  }

  lemma FramedStep(first: Node, before: Node, now: Node, root: Path, paths: seq<Path>, i: nat)
    requires i < |paths| && Framed(first, before, root, paths) && Confined(before, now, paths[i])
    ensures Framed(first, now, root, paths)
    ensures Unhindered(before, paths) ==> Unhindered(now, paths)
  {
    BesideStays(before, now, paths, i);
    StaysIntact(first, before, now, paths, root, i);
  }

  lemma ForwardStep(first: Node, before: Node, now: Node, root: Path, dir: Path, items: seq<Item>, taken: Node, i: nat)
    requires i < |items| && WellPlaced(items, root) && Forward(first, before, dir, items, taken, i)
    requires Confined(before, now, items[i].original) && IsRestored(first, now, dir, items[i])
    requires IsDir(now, Parent(items[i].original))
    ensures Forward(first, now, dir, items, taken, i + 1)
  {
    var paths := Originals(items);
    RestoredStays(first, before, now, dir, items, i);
    BesideStays(before, now, paths, i);
    assert items[i].original == paths[i];
    StepMakes(before, now, paths, i);
    if TakenFrom(taken, first, dir, items) && Harmless(taken, paths) {
      StepAdvances(taken, before, now, paths, i);
    }
  }

  /** One pass of the restore that began in `first`. */
  method ApplyOne(disk: Disk, root: Path, dir: Path, items: seq<Item>, i: nat, ghost first: Node, ghost taken: Node)
    returns (ok: bool)
    requires disk.root.Dir? && root <= dir && WellPlaced(items, root) && i < |items|
    requires Framed(first, disk.root, root, Originals(items)) && Forward(first, disk.root, dir, items, taken, i)
    modifies disk
    ensures disk.root.Dir? && Framed(first, disk.root, root, Originals(items))
    ensures disk.Counted(ok, !(Available(first, dir, items[i]) && Unhindered(first, Originals(items))))
    ensures ok ==> Forward(first, disk.root, dir, items, taken, i + 1)
  {
    ghost var before, paths := disk.root, Originals(items);
    StoredBeside(root, dir, items);
    InsideApart(items[i].original, root, dir);
    assert Find(before, StoredAt(dir, items[i])) == Find(first, StoredAt(dir, items[i]));
    ok := RestoreItem(disk, dir, items[i]);
    FramedStep(first, before, disk.root, root, paths, i);
    if ok {
      ForwardStep(first, before, disk.root, root, dir, items, taken, i);
    }
  }

  /** Restores items until one fails.  Each is as in the snapshot unless a later one meets it.
      For a snapshot that was taken of one tree, `Forward` says what that means for paths that
      lie inside one another. */
  method Apply(disk: Disk, root: Path, dir: Path, items: seq<Item>, ghost taken: Node) returns (ok: bool)
    requires disk.root.Dir? && root <= dir && WellPlaced(items, root)
    modifies disk
    ensures disk.root.Dir? && Framed(old(disk.root), disk.root, root, Originals(items))
    ensures disk.Counted(ok,
                         !(AllAvailable(old(disk.root), dir, items) && Unhindered(old(disk.root), Originals(items))))
    ensures ok ==> Forward(old(disk.root), disk.root, dir, items, taken, |items|)
  {
    ghost var first := disk.root;
    for i := 0 to |items|
      invariant disk.root.Dir? && disk.errors == old(disk.errors) && disk.faults == old(disk.faults)
      invariant Framed(first, disk.root, root, Originals(items))
      invariant Forward(first, disk.root, dir, items, taken, i)
    {
      ok := ApplyOne(disk, root, dir, items, i, first, taken);
      if !ok {
        return;
      }
    }
    return true;
  }

  lemma StoredBeside(root: Path, dir: Path, items: seq<Item>)
    requires root <= dir && WellPlaced(items, root)
    ensures forall i :: 0 <= i < |items| ==> Beside(StoredAt(dir, items[i]), Originals(items))
  {
    forall i, j | 0 <= i < |items| && 0 <= j < |items|
      ensures Apart(StoredAt(dir, items[i]), items[j].original)
    {
      InsideApart(items[j].original, root, StoredAt(dir, items[i]));
    }
  }

  lemma UndoneByPath(taken: Node, now: Node, items: seq<Item>)
    ensures AllUndone(taken, now, items) <==> forall p <- Originals(items) :: Undone(taken, now, p)
  {
    var paths := Originals(items);
    assert forall i :: 0 <= i < |items| ==> paths[i] == items[i].original;
  }

  /** All items have been restored. */
  lemma ForwardToTheEnd(first: Node, now: Node, dir: Path, items: seq<Item>, taken: Node)
    requires Forward(first, now, dir, items, taken, |items|)
    ensures AllAvailable(first, dir, items)
    ensures TakenFrom(taken, first, dir, items) ==>
              (AllUndone(taken, now, items) <==> Harmless(taken, Originals(items)))
  {
    if TakenFrom(taken, first, dir, items) {
      UndoneIffHarmless(taken, now, Originals(items));
      UndoneByPath(taken, now, items);
    }
  }

  datatype Outcome = Restored | Unchanged | RolledBack

  /** What a success means: the items are as in the snapshot where no later one meets them; and
      for a snapshot that was taken of one tree, every path is as it was there if and only if no
      missing directory has been made inside one for good. */
  ghost predicate Succeeded(before: Node, now: Node, dir: Path, items: seq<Item>, taken: Node) {
    && Restorable(before, dir, items)
    && AllRestored(before, now, dir, items, |items|)
    && (TakenFrom(taken, before, dir, items) ==>
          (AllUndone(taken, now, items) <==> Harmless(taken, Originals(items))))
  }

  /** Every path is as it was in `before`, but for special bits. */
  ghost predicate AllUndone(before: Node, now: Node, items: seq<Item>) {
    forall i :: 0 <= i < |items| ==> Undone(before, now, items[i].original)
  }

  /** The middle of a restore, between the making and the removal of the directory `temp`. */
  method RestoreAll(disk: Disk, root: Path, dir: Path, temp: Path, items: seq<Item>, ghost taken: Node)
    returns (outcome: Outcome)
    requires disk.root.Dir? && root <= dir && root <= temp && temp != [] && WellPlaced(items, root)
    requires IsDir(disk.root, temp) && Find(disk.root, temp).node.kids == map[] && Apart(dir, temp)
    modifies disk
    ensures disk.root.Dir? && disk.errors - old(disk.errors) >= disk.faults - old(disk.faults) >= 0
    ensures outcome == Restored ==> Succeeded(old(disk.root), disk.root, dir, items, taken)
    ensures disk.faults == old(disk.faults) && Scattered(Originals(items)) && Restorable(old(disk.root), dir, items) ==>
              outcome == Restored
    ensures outcome == Unchanged ==> forall r :: Apart(r, temp) ==> Find(disk.root, r) == Find(old(disk.root), r)
    ensures outcome == RolledBack && (disk.faults == old(disk.faults) || disk.errors == old(disk.errors) + 1) ==>
              AllUndone(old(disk.root), disk.root, items)
    ensures forall r :: Apart(r, temp) && Beside(r, Originals(items)) ==> Find(disk.root, r) == Find(old(disk.root), r)
  {
    ghost var first, paths := disk.root, Originals(items);
    var saved, ok := Capture(disk, items, root, temp);
    if !ok {
      return Unchanged;
    }
    ghost var second := disk.root;
    CaptureLeaves(first, second, root, dir, temp, items);
    ok := Apply(disk, root, dir, items, taken);
    if ok {
      ForwardSucceeds(first, second, disk.root, dir, items, taken);
      return Restored;
    }
    StillHeld(first, second, disk.root, root, saved, paths);
    PutBack(disk, saved, first, paths, root);
    return RolledBack;
  }

  /** Whatever the items' paths are now, the copies made before are there. */
  lemma StillHeld(first: Node, second: Node, third: Node, root: Path, saved: seq<Saved>, paths: seq<Path>)
    requires Separate(saved) && |paths| == |saved|
    requires forall i :: 0 <= i < |saved| ==> saved[i].path == paths[i] && Kept(first, second, saved[i])
    requires Intact(first, second, paths, root) && Framed(second, third, root, paths)
    ensures Intact(first, third, paths, root)
    ensures forall i :: 0 <= i < |saved| ==>
              Held(third, saved[i]) && Wanted(third, saved[i]) == PlainLookup(Find(first, paths[i]))
  {
    forall i | 0 <= i < |saved|
      ensures Held(third, saved[i]) && Wanted(third, saved[i]) == PlainLookup(Find(first, paths[i]))
    {
      assert Beside(saved[i].stored, paths);
      KeptIsHeld(first, second, saved[i]);
    }
  }

  /** A restore that began in `second`, behind the captures, is one that began in `first`. */
  lemma ForwardSucceeds(first: Node, second: Node, now: Node, dir: Path, items: seq<Item>, taken: Node)
    requires forall i :: 0 <= i < |items| ==>
               Find(second, StoredAt(dir, items[i])) == Find(first, StoredAt(dir, items[i]))
    requires Forward(second, now, dir, items, taken, |items|) && AllKeepable(first, items)
    ensures Succeeded(first, now, dir, items, taken)
  {
    ForwardToTheEnd(second, now, dir, items, taken);
    SameTargets(first, second, dir, items, taken);
    SameRestored(first, second, now, now, dir, items);
  }

  /** Copies in `temp` change neither the snapshot nor what is at the items' paths. */
  lemma CaptureLeaves(first: Node, second: Node, root: Path, dir: Path, temp: Path, items: seq<Item>)
    requires root <= temp && Apart(dir, temp) && WellPlaced(items, root) && Confined(first, second, temp)
    ensures forall i :: 0 <= i < |items| ==> Find(second, items[i].original) == Find(first, items[i].original)
    ensures forall i :: 0 <= i < |items| ==> Apart(items[i].original, temp)
    ensures forall i :: 0 <= i < |items| ==>
              Find(second, StoredAt(dir, items[i])) == Find(first, StoredAt(dir, items[i]))
    ensures Intact(first, second, Originals(items), root)
  {
    forall i | 0 <= i < |items|
      ensures Apart(items[i].original, temp) && Apart(StoredAt(dir, items[i]), temp)
    {
      InsideApart(items[i].original, root, temp);
      InsideApart(temp, dir, StoredAt(dir, items[i]));
    }
    ConfinedEases(first, second, temp);
  }

  /** The temporary directory is beside everything else. */
  lemma ApartFromTemp(root: Path, dir: Path, temp: Path, items: seq<Item>)
    requires root <= dir && root <= temp && Apart(dir, temp) && WellPlaced(items, root)
    ensures forall r :: Apart(r, root) ==> Apart(r, temp)
    ensures forall r :: dir <= r ==> Apart(r, temp) && Beside(r, Originals(items))
  {
    forall r | Apart(r, root)
      ensures Apart(r, temp)
    {
      InsideApart(r, root, temp);
    }
    forall r | dir <= r
      ensures Apart(r, temp) && Beside(r, Originals(items))
    {
      InsideApart(temp, dir, r);
      forall i | 0 <= i < |items|
        ensures Apart(r, items[i].original)
      {
        InsideApart(items[i].original, root, r);
      }
    }
  }

  /** The snapshot is the same in both trees. */
  lemma SameTargets(first: Node, second: Node, dir: Path, items: seq<Item>, taken: Node)
    requires forall i :: 0 <= i < |items| ==>
               Find(second, StoredAt(dir, items[i])) == Find(first, StoredAt(dir, items[i]))
    ensures AllAvailable(second, dir, items) <==> AllAvailable(first, dir, items)
    ensures TakenFrom(taken, first, dir, items) ==> TakenFrom(taken, second, dir, items)
  {
    forall i | 0 <= i < |items|
      ensures Available(second, dir, items[i]) <==> Available(first, dir, items[i])
      ensures Target(second, dir, items[i]) == Target(first, dir, items[i])
    {
    }
  }

  lemma SameKeepable(first: Node, second: Node, items: seq<Item>)
    requires forall i :: 0 <= i < |items| ==> Find(second, items[i].original) == Find(first, items[i].original)
    ensures AllKeepable(second, items) <==> AllKeepable(first, items)
  {
    assert forall i :: 0 <= i < |items| ==>
                         (Storable(second, items[i].original) <==> Storable(first, items[i].original));
  }

  /** The items are restored in both trees. */
  lemma SameRestored(first: Node, second: Node, third: Node, last: Node, dir: Path, items: seq<Item>)
    requires forall i :: 0 <= i < |items| ==>
               Find(second, StoredAt(dir, items[i])) == Find(first, StoredAt(dir, items[i]))
    requires forall i :: 0 <= i < |items| ==> Find(last, items[i].original) == Find(third, items[i].original)
    ensures AllRestored(second, third, dir, items, |items|) ==> AllRestored(first, last, dir, items, |items|)
  {
    forall i | 0 <= i < |items| && IsRestored(second, third, dir, items[i])
      ensures IsRestored(first, last, dir, items[i])
    {
    }
  }

  /** What is said of a restore from `second` to `third` holds from `first` to `last`, if the
      snapshot and the items' paths look the same. */
  lemma SuccessSeen(first: Node, second: Node, third: Node, last: Node, dir: Path, items: seq<Item>, taken: Node)
    requires forall i :: 0 <= i < |items| ==>
               Find(second, StoredAt(dir, items[i])) == Find(first, StoredAt(dir, items[i]))
    requires AllKeepable(second, items) ==> AllKeepable(first, items)
    requires forall i :: 0 <= i < |items| ==> Find(last, items[i].original) == Find(third, items[i].original)
    requires Succeeded(second, third, dir, items, taken)
    ensures Succeeded(first, last, dir, items, taken)
  {
    SameTargets(first, second, dir, items, taken);
    SameRestored(first, second, third, last, dir, items);
    assert AllUndone(taken, third, items) <==> AllUndone(taken, last, items);
  }

  lemma UndoneSeen(first: Node, second: Node, third: Node, last: Node, items: seq<Item>)
    requires forall i :: 0 <= i < |items| ==> Find(second, items[i].original) == Find(first, items[i].original)
    requires forall i :: 0 <= i < |items| ==> Find(last, items[i].original) == Find(third, items[i].original)
    ensures AllUndone(second, third, items) ==> AllUndone(first, last, items)
  {
  }

  /** What is said of a restore without the temporary directory holds with it. */
  lemma SeenFromOutside(first: Node, second: Node, third: Node, last: Node, root: Path, dir: Path, temp: Path,
                        items: seq<Item>, taken: Node)
    requires root <= dir && root <= temp && Apart(dir, temp) && WellPlaced(items, root)
    requires Confined(first, second, temp) && Confined(third, last, temp)
    ensures Succeeded(second, third, dir, items, taken) ==> Succeeded(first, last, dir, items, taken)
    ensures AllUndone(second, third, items) ==> AllUndone(first, last, items)
    ensures Restorable(first, dir, items) ==> Restorable(second, dir, items)
  {
    CaptureLeaves(first, second, root, dir, temp, items);
    CaptureLeaves(third, last, root, dir, temp, items);
    ApartFromTemp(root, dir, temp, items);
    SameKeepable(first, second, items);
    SameTargets(first, second, dir, items, taken);
    UndoneSeen(first, second, third, last, items);
    if Succeeded(second, third, dir, items, taken) {
      SuccessSeen(first, second, third, last, dir, items, taken);
    }
  }

  /** With the temporary directory what was kept in it is gone: there is nothing new under `root`. */
  lemma NothingKept(first: Node, last: Node, root: Path, temp: Path, items: seq<Item>)
    requires temp != [] && Parent(temp) == root && Find(first, temp) == Missing && Find(last, temp) == Missing
    requires WellPlaced(items, root)
    requires forall r :: Apart(r, temp) && Beside(r, Originals(items)) ==> Find(last, r) == Find(first, r)
    ensures forall r :: root <= r && r != root ==> Find(last, r) == Find(first, r)
  {
    forall r | root <= r && r != root
      ensures Find(last, r) == Find(first, r)
    {
      if temp <= r {
        FindBelow(first, temp, r);
        FindBelow(last, temp, r);
      } else {
        assert Apart(r, temp);
        forall i | 0 <= i < |items|
          ensures Apart(r, items[i].original)
        {
          InsideApart(items[i].original, root, r);
        }
      }
    }
  }

  // ----- Snapshots of one tree -----

  /** Paths that do not meet are harmless. */
  lemma ScatteredIsHarmless(taken: Node, paths: seq<Path>)
    requires Scattered(paths)
    ensures Harmless(taken, paths)
  {
    forall i, j | 0 <= j < i < |paths| && paths[i] != [] && paths[j] <= Parent(paths[i])
      ensures paths[j] <= paths[i]
    {
    }
  }
}
