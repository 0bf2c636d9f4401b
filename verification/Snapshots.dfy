/**
 Configuration snapshots, `internal/snapshots/manager.go`: creating one, and restoring one
 with a rollback when that fails half way.
 */
module Snapshots {
  import opened Prelude
  import opened FileTree
  import opened TreeCopy
  import opened TreeRollback
  import opened SnapshotItems
  import opened SnapshotRestore

  /** `started` says whether the directory of the snapshot had been made. */
  datatype Creation = Created(items: seq<Item>, size: nat) | Failed(started: bool)

  class Manager {
    const root: Path

    /** The JSON text of the items of a snapshot. */
    const encode: seq<Item> -> seq<Byte>
    const decode: seq<Byte> -> Option<seq<Item>>

    constructor (root: Path, encode: seq<Item> -> seq<Byte>, decode: seq<Byte> -> Option<seq<Item>>)
      ensures this.root == root && this.encode == encode && this.decode == decode
    {
      this.root, this.encode, this.decode := root, encode, decode;
    }

    ghost function Record(n: Node, id: string): Option<seq<Item>> {
      var l := Find(n, root + [id, "snapshot.json"]);
      if l.Found? && l.node.File? then decode(l.node.data) else None
    }

    /** Restores the items by way of a temporary directory.  That is removed in any case: after
        one more failure, which is then in the rollback, a path that was not put back has lost
        its content, for the copy kept in the temporary directory is gone too. */
    method RestoreItems(disk: Disk, dir: Path, items: seq<Item>, ghost taken: Node) returns (outcome: Outcome)
      requires disk.root.Dir? && root != [] && dir != [] && Parent(dir) == root && Find(disk.root, dir).Found?
      requires WellPlaced(items, root)
      modifies disk
      ensures disk.root.Dir? && disk.errors - old(disk.errors) >= disk.faults - old(disk.faults) >= 0
      ensures outcome == Restored ==> Succeeded(old(disk.root), disk.root, dir, items, taken)
      ensures disk.faults == old(disk.faults) && IsDir(old(disk.root), root)
              && Scattered(Originals(items)) && Restorable(old(disk.root), dir, items) ==>
                outcome == Restored
      ensures outcome == Unchanged ==> forall r :: Apart(r, root) ==> Find(disk.root, r) == Find(old(disk.root), r)
      ensures outcome == RolledBack && (disk.faults == old(disk.faults) || disk.errors == old(disk.errors) + 1) ==>
                AllUndone(old(disk.root), disk.root, items)
      ensures outcome == RolledBack && disk.errors == old(disk.errors) + 2
              && !AllUndone(old(disk.root), disk.root, items) ==>
                forall r :: root <= r && r != root ==> Find(disk.root, r) == Find(old(disk.root), r)
      ensures forall r :: Apart(r, root) && Beside(r, Originals(items)) ==>
                Find(disk.root, r) == Find(old(disk.root), r)
      ensures forall r :: dir <= r ==> Find(disk.root, r) == Find(old(disk.root), r)
    {
      ghost var first := disk.root;
      var temp := disk.MkdirTemp(root);
      if temp.None? {
        return Unchanged;
      }
      ghost var second := disk.root;
      SiblingsApart(dir, temp.value);
      outcome := RestoreAll(disk, root, dir, temp.value, items, taken);
      ghost var third := disk.root;
      var removed := disk.RemoveAll(temp.value);
      ApartFromTemp(root, dir, temp.value, items);
      if removed {
        NothingKept(first, disk.root, root, temp.value, items);
      }
      SeenFromOutside(first, second, third, disk.root, root, dir, temp.value, items, taken);
    }

    /** `Restore`.  Either every item is restored that no later one meets, and every path is as
        in the tree the snapshot was taken of, if there is one, exactly when the paths are `Harmless`;
        or, after an error, every path is as it was, but for special bits, wherever the paths
        are, unless something more went wrong during the rollback, which takes a fault.  Paths
        that do not meet are restored without a fault whenever nothing stands in the way.
        Nothing else changes but temporary files and missing directories. */
    method Restore(disk: Disk, id: string, ghost taken: Node) returns (outcome: Outcome)
      requires disk.root.Dir? && root != []
      requires Record(disk.root, id).Some? ==> WellPlaced(Record(disk.root, id).value, root)
      modifies disk
      ensures outcome != Unchanged ==> ValidId(id) && Record(old(disk.root), id).Some?
      ensures outcome == Restored ==>
                Succeeded(old(disk.root), disk.root, root + [id], Record(old(disk.root), id).value, taken)
      ensures disk.faults == old(disk.faults) && ValidId(id) && Record(old(disk.root), id).Some? ==>
                var items := Record(old(disk.root), id).value;
                Scattered(Originals(items)) ==>
                  (outcome == Restored <==> Restorable(old(disk.root), root + [id], items))
      ensures outcome == Unchanged ==> forall r :: Apart(r, root) ==> Find(disk.root, r) == Find(old(disk.root), r)
      ensures outcome == RolledBack && (disk.faults == old(disk.faults) || disk.errors == old(disk.errors) + 1) ==>
                AllUndone(old(disk.root), disk.root, Record(old(disk.root), id).value)
      ensures outcome == RolledBack && disk.errors == old(disk.errors) + 2
              && !AllUndone(old(disk.root), disk.root, Record(old(disk.root), id).value) ==>
                forall r :: root <= r && r != root ==> Find(disk.root, r) == Find(old(disk.root), r)
      ensures outcome != Unchanged ==>
                forall r :: Apart(r, root) && Beside(r, Originals(Record(old(disk.root), id).value)) ==>
                              Find(disk.root, r) == Find(old(disk.root), r)
      ensures forall r :: root + [id] <= r ==> Find(disk.root, r) == Find(old(disk.root), r)
    {
      if !ValidId(id) {
        return Unchanged;
      }
      var dir := root + [id];
      FindBelow(disk.root, root, root + [id, "snapshot.json"]);
      assert dir + ["snapshot.json"] == root + [id, "snapshot.json"];
      var data := disk.ReadFile(dir + ["snapshot.json"]);
      if data.None? {
        return Unchanged;
      }
      var items := decode(data.value);
      if items.None? {
        return Unchanged;
      }
      FindBelow(disk.root, dir, dir + ["snapshot.json"]);
      outcome := RestoreItems(disk, dir, items.value, taken);
    }

    /** Fills the directories of a new snapshot. */
    method Fill(disk: Disk, dir: Path, paths: seq<Path>) returns (items: seq<Item>, size: nat, ok: bool)
      requires disk.root.Dir? && dir != [] && forall p <- paths :: p == [] || Apart(p, dir)
      requires IsDir(disk.root, dir) && Find(disk.root, dir + ["snapshot.json"]) == Missing
      requires IsDir(disk.root, dir + ["items"]) && Find(disk.root, dir + ["items"]).node.kids == map[]
      modifies disk
      ensures Confined(old(disk.root), disk.root, dir) && Find(disk.root, dir) != Missing
      ensures disk.Counted(ok, !AllStorable(old(disk.root), paths))
      ensures ok ==> AllStorable(old(disk.root), paths) && size == TotalSize(old(disk.root), paths)
      ensures ok ==> |items| == |paths|
      ensures ok ==> forall i :: 0 <= i < |paths| ==> IsStored(old(disk.root), disk.root, dir, paths[i], items[i])
      ensures ok ==>
                var l := Find(disk.root, dir + ["snapshot.json"]);
                l.Found? && l.node.File? && l.node.data == encode(items)
    {
      items, size, ok := StoreAll(disk, dir, paths);
      ConfinedToKid(old(disk.root), disk.root, dir, "items");
      KidsApart(dir, "snapshot.json", "items");
      if ok {
        ghost var mid := disk.root;
        ok := WriteRecord(disk, dir, encode(items));
        ConfinedTwice(old(disk.root), mid, disk.root, dir);
      }
    }

    /** `Create`, for the identifier `id` that the clock gives.  The snapshot holds what is at
        each path, and says so; an error leaves no snapshot unless its removal fails too.
        Without a fault, it succeeds for one to 32 paths that a snapshot can hold. */
    method Create(disk: Disk, id: string, paths: seq<Path>) returns (result: Creation)
      requires disk.root.Dir? && root != [] && Find(disk.root, root + [id]) == Missing
      requires forall p <- paths :: p == [] || Apart(p, root + [id])
      modifies disk
      ensures Confined(old(disk.root), disk.root, root + [id])
      ensures disk.faults == old(disk.faults) ==>
                (result.Created? <==> 0 < |paths| <= 32 && AllStorable(old(disk.root), paths))
      ensures result.Created? ==>
                && |result.items| == |paths| && result.size == TotalSize(old(disk.root), paths)
                && (forall i :: 0 <= i < |paths| ==>
                      IsStored(old(disk.root), disk.root, root + [id], paths[i], result.items[i]))
                && (decode(encode(result.items)) == Some(result.items) ==> Record(disk.root, id) == Some(result.items))
      ensures result == Failed(true) && (disk.faults == old(disk.faults) || disk.errors == old(disk.errors) + 1) ==>
                Find(disk.root, root + [id]) == Missing
    {
      if |paths| == 0 || |paths| > 32 {
        return Failed(false);
      }
      var dir := root + [id];
      var made := MakeItemsDirectory(disk, dir);
      if !made {
        return Failed(false);
      }
      ghost var mid := disk.root;
      SameThere(old(disk.root), mid, paths);
      var items, size, ok := Fill(disk, dir, paths);
      ConfinedTwice(old(disk.root), mid, disk.root, dir);
      assert dir + ["snapshot.json"] == root + [id, "snapshot.json"];
      if !ok {
        mid := disk.root;
        var removed := disk.RemoveAll(dir);
        ConfinedTwice(old(disk.root), mid, disk.root, dir);
        return Failed(true);
      }
      StoredSince(old(disk.root), mid, disk.root, dir, paths, items);
      return Created(items, size);
    }
  }

  /** A snapshot that was created has been taken of the tree of then. */
  lemma CreatedIsTaken(before: Node, made: Node, later: Node, dir: Path, paths: seq<Path>, items: seq<Item>)
    requires |items| == |paths| && AllStorable(before, paths)
    requires forall i :: 0 <= i < |paths| ==> IsStored(before, made, dir, paths[i], items[i])
    requires forall r :: dir <= r ==> Find(later, r) == Find(made, r)
    ensures Originals(items) == paths && TakenFrom(before, later, dir, items)
  {
    forall i | 0 <= i < |paths|
      ensures Find(before, paths[i]) != NotDir && Target(later, dir, items[i]) == PlainLookup(Find(before, paths[i]))
    {
      assert paths[i] in paths && Storable(before, paths[i]);
      assert dir <= StoredAt(dir, items[i]);
      if Find(before, paths[i]).Found? {
        PlainTwice(Find(before, paths[i]).node);
      }
    }
  }

  /** Whatever happens between the creation of a snapshot and its restore, outside the
      snapshot: every path is as it was at the creation, but for special bits, if and only if no
      directory that was missing then has been made inside one for good. */
  lemma RoundTrip(before: Node, made: Node, later: Node, now: Node, dir: Path, paths: seq<Path>, items: seq<Item>)
    requires |items| == |paths| && AllStorable(before, paths)
    requires forall i :: 0 <= i < |paths| ==> IsStored(before, made, dir, paths[i], items[i])
    requires forall r :: dir <= r ==> Find(later, r) == Find(made, r)
    requires Succeeded(later, now, dir, items, before)
    ensures (forall p <- paths :: Undone(before, now, p)) <==> Harmless(before, paths)
    ensures forall p <- paths :: Undone(before, now, p) ==>
              (Find(now, p) == Find(before, p) <==> (Find(before, p).Found? ==> IsPlain(Find(before, p).node)))
  {
    CreatedIsTaken(before, made, later, dir, paths, items);
    UndoneByPath(before, now, items);
    forall p | p in paths && Undone(before, now, p)
      ensures Find(now, p) == Find(before, p) <==> Find(before, p).Found? ==> IsPlain(Find(before, p).node)
    {
      if Find(before, p).Found? {
        PlainIffNoSpecialBits(Find(before, p).node);
      }
    }
  }
}
