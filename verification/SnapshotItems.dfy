/**
 The items of a configuration snapshot, `internal/snapshots/manager.go`: their identifiers
 and file names, looking at one path and copying what is there, and storing all paths.
 */
module SnapshotItems {
  import opened Prelude
  import opened Splitting
  import opened FileTree
  import opened TreeCopy

  datatype Item = Item(original: Path, stored: string, present: bool)

  /** What a restore keeps to go back to. */
  datatype Saved = Saved(path: Path, stored: Path, present: bool, info: Info)

  // ----- Three digits, or more -----

  function Digits(n: nat): string {
    if n < 10 then [('0' as int + n) as char] else Digits(n / 10) + [('0' as int + n % 10) as char]
  }

  function Number(n: nat): string {
    if n < 10 then "00" + Digits(n) else if n < 100 then "0" + Digits(n) else Digits(n)
  }

  ghost function ValueOf(s: string): int {
    if s == "" then 0 else 10 * ValueOf(s[..|s| - 1]) + s[|s| - 1] as int - '0' as int
  }

  lemma {:induction false} ValueOfDigits(n: nat)
    ensures ValueOf(Digits(n)) == n
  {
    if n >= 10 {
      ValueOfDigits(n / 10);
      assert Digits(n)[..|Digits(n)| - 1] == Digits(n / 10);
    } else {
      assert Digits(n)[..0] == "";
    }
  }

  lemma {:induction false} ValueOfPadded(s: string)
    ensures ValueOf("0" + s) == ValueOf(s)
  {
    if s == "" {
      assert "0" + s == "0" && "0"[..0] == "";
    } else {
      ValueOfPadded(s[..|s| - 1]);
      assert ("0" + s)[..|s|] == "0" + s[..|s| - 1];
    }
  }

  lemma NumbersDiffer(m: nat, n: nat)
    requires Number(m) == Number(n)
    ensures m == n
  {
    ValueOfNumber(m);
    ValueOfNumber(n);
  }

  lemma ValueOfNumber(n: nat)
    ensures ValueOf(Number(n)) == n
  {
    ValueOfDigits(n);
    ValueOfPadded(Digits(n));
    ValueOfPadded("0" + Digits(n));
    assert "00" + Digits(n) == "0" + ("0" + Digits(n));
  }

  // ----- Identifiers -----

  /** `validID`; a string without a slash is its own base name. */
  predicate ValidId(id: string) {
    && 10 <= |id| <= 80
    && (forall i :: 0 < i < |id| ==> id[i] != '.' || id[i - 1] != '.')
    && (forall c <- id :: c !in "/\\\0\r\n")
  }

  /** So it is one element of a path, and not the one that leads upwards, on any system. */
  lemma ValidIdIsOneElement(id: string)
    requires ValidId(id)
    ensures Split(id, '/') == [id] && Split(id, '\\') == [id] && id != "." && 10 <= |id| <= 80
    ensures forall i, j :: 0 <= i && j == i + 2 <= |id| ==> id[i..j] != ".."
  {
    SplitOne(id, '/');
    SplitOne(id, '\\');
    forall i, j | 0 <= i && j == i + 2 <= |id|
      ensures id[i..j] != ".."
    {
      assert id[i..j][0] == id[i] && id[i..j][1] == id[i + 1];
    }
  }

  /** The time stamp that `Create` begins an identifier with. */
  predicate IsStamp(s: string) {
    |s| == 25 && forall i :: 0 <= i < 25 ==>
      if i == 8 then s[i] == 'T' else if i == 15 then s[i] == '.' else '0' <= s[i] <= '9'
  }

  /** What `cleanLabel` leaves of a kind. */
  predicate IsLabel(s: string) {
    s != "" && forall c <- s :: 'a' <= c <= 'z' || '0' <= c <= '9' || c == '-' || c == '_'
  }

  /** The identifiers that `Create` makes are accepted by `Restore` exactly up to a kind of 54
      characters: nothing keeps `Create` from making longer ones. */
  lemma ValidIdIff(stamp: string, kind: string)
    requires IsStamp(stamp) && IsLabel(kind)
    ensures ValidId(stamp + "-" + kind) <==> |kind| <= 54
  {
    var id := stamp + "-" + kind;
    forall i | 0 <= i < |id|
      ensures id[i] == '.' <==> i == 15
      ensures id[i] !in "/\\\0\r\n"
    {
      if i > 25 {
        assert id[i] == kind[i - 26] && kind[i - 26] in kind;
      }
    }
  }

  // ----- Paths beside one another -----

  lemma KidsApart(d: Path, j: string, k: string)
    requires j != k
    ensures Apart(d + [j], d + [k])
  {
    assert (d + [j])[|d|] == j && (d + [k])[|d|] == k;
  }

  lemma SiblingsApart(p: Path, q: Path)
    requires p != [] && q != [] && Parent(p) == Parent(q) && p != q
    ensures Apart(p, q)
  {
    assert |p| == |q|;
  }

  lemma InsideApart(p: Path, d: Path, q: Path)
    requires Apart(p, d) && d <= q
    ensures Apart(p, q)
  {
    assert q <= p ==> d <= p;
    assert p <= q && |p| >= |d| ==> d <= p;
    assert p <= q && |p| <= |d| ==> p <= d;
  }

  // ----- One path -----

  /** `s` tells what was at its path in `before`, and its copy is there in `now`. */
  ghost predicate Kept(before: Node, now: Node, s: Saved) {
    match Find(before, s.path)
    case Found(n) => s.present && s.info == InfoOf(n) && Copyable(n) && Find(now, s.stored) == Found(Plain(n))
    case Missing => !s.present
    case NotDir => false
  }

  /** A snapshot can hold what is at the path. */
  ghost predicate Storable(n: Node, p: Path) {
    p != [] && Find(n, p) != NotDir && (Find(n, p).Found? ==> Copyable(Find(n, p).node))
  }

  ghost predicate AllStorable(n: Node, paths: seq<Path>) {
    forall p <- paths :: Storable(n, p)
  }

  ghost function SizeAt(n: Node, p: Path): nat {
    if Find(n, p).Found? then Size(Find(n, p).node) else 0
  }

  /** Looks at one path, and copies what is there. */
  method CaptureOne(disk: Disk, path: Path, temp: Path, name: string) returns (s: Saved, size: nat, ok: bool)
    requires disk.root.Dir? && temp != [] && path != [] && Apart(path, temp) && IsDir(disk.root, temp)
    requires Find(disk.root, temp + [name]) == Missing
    modifies disk
    ensures Confined(old(disk.root), disk.root, temp + [name]) && Confined(old(disk.root), disk.root, temp)
            && IsDir(disk.root, temp)
    ensures disk.Counted(ok, !Storable(old(disk.root), path))
    ensures ok ==> Storable(old(disk.root), path) && size == SizeAt(old(disk.root), path)
    ensures ok ==> s.path == path && s.stored == temp + [name] && Kept(old(disk.root), disk.root, s)
  {
    var stored := temp + [name];
    assert temp <= stored;
    InsideApart(path, temp, stored);
    var stat := disk.Lstat(path);
    s := Saved(path, stored, stat.Exists?, if stat.Exists? then stat.info else Info(IsSpecial, 0));
    if stat.Trouble? {
      return s, 0, false;
    }
    size, ok := 0, true;
    if stat.Exists? {
      size, ok := CopyEntry(disk, path, stored, stat.info);
    }
    ConfinedToKid(old(disk.root), disk.root, temp, name);
  }

  // ----- Creating -----

  /** Where the directory of a snapshot holds an item. */
  function StoredAt(dir: Path, item: Item): Path {
    dir + ["items"] + [item.stored]
  }

  /** The item tells what was at the path in `before`, and its copy is in the snapshot. */
  ghost predicate IsStored(before: Node, now: Node, dir: Path, path: Path, item: Item) {
    && item.original == path
    && (item.present <==> Find(before, path).Found?)
    && (item.present ==> Find(now, StoredAt(dir, item)) == PlainLookup(Find(before, path)))
  }

  ghost function TotalSize(n: Node, paths: seq<Path>): nat {
    if paths == [] then 0 else TotalSize(n, paths[..|paths| - 1]) + SizeAt(n, paths[|paths| - 1])
  }

  /** One pass of the loop of `Create`. */
  method StoreOne(disk: Disk, dir: Path, path: Path, i: nat) returns (item: Item, size: nat, ok: bool)
    requires disk.root.Dir? && (path == [] || Apart(path, dir)) && IsDir(disk.root, dir + ["items"])
    requires Find(disk.root, dir + ["items"] + [Number(i)]) == Missing
    modifies disk
    ensures Confined(old(disk.root), disk.root, dir + ["items"]) && IsDir(disk.root, dir + ["items"])
    ensures disk.Counted(ok, !Storable(old(disk.root), path))
    ensures ok ==> Storable(old(disk.root), path) && size == SizeAt(old(disk.root), path)
    ensures ok ==> item.stored == Number(i) && IsStored(old(disk.root), disk.root, dir, path, item)
    ensures ok ==> forall j: nat :: j != i ==>
                     Find(disk.root, dir + ["items"] + [Number(j)])
                       == Find(old(disk.root), dir + ["items"] + [Number(j)])
  {
    var temp := dir + ["items"];
    item := Item(path, Number(i), false);
    if path == [] {
      disk.Fail();
      return item, 0, false;
    }
    InsideApart(path, dir, temp);
    var one;
    one, size, ok := CaptureOne(disk, path, temp, Number(i));
    if ok {
      OthersStay(old(disk.root), disk.root, temp, i);
      item := item.(present := one.present);
    }
  }

  lemma TotalSizeNext(n: Node, paths: seq<Path>, i: nat)
    requires i < |paths|
    ensures TotalSize(n, paths[..i + 1]) == TotalSize(n, paths[..i]) + SizeAt(n, paths[i])
  {
    assert paths[..i + 1][..i] == paths[..i];
  }

  /** What is at the path is the same in both trees. */
  lemma SeenBefore(first: Node, before: Node, now: Node, dir: Path, path: Path, item: Item)
    requires path != [] ==> Find(before, path) == Find(first, path)
    ensures Storable(before, path) <==> Storable(first, path)
    ensures path != [] ==> SizeAt(before, path) == SizeAt(first, path)
    ensures path != [] && IsStored(before, now, dir, path, item) ==> IsStored(first, now, dir, path, item)
  {
  }

  /** The first `i` paths have been stored. */
  ghost predicate StoredSoFar(first: Node, now: Node, dir: Path, paths: seq<Path>, items: seq<Item>, i: nat)
    requires i <= |paths|
  {
    && |items| == i
    && (forall j :: 0 <= j < i ==>
          && items[j].stored == Number(j) && Storable(first, paths[j])
          && IsStored(first, now, dir, paths[j], items[j]))
    && (forall j: nat :: j >= i ==> Find(now, dir + ["items"] + [Number(j)]) == Missing)
  }

  lemma StoredOneMore(first: Node, before: Node, now: Node, dir: Path, paths: seq<Path>, items: seq<Item>, item: Item)
    requires |items| < |paths| && StoredSoFar(first, before, dir, paths, items, |items|)
    requires item.stored == Number(|items|) && Storable(first, paths[|items|])
    requires IsStored(first, now, dir, paths[|items|], item)
    requires forall j: nat :: j != |items| ==>
               Find(now, dir + ["items"] + [Number(j)]) == Find(before, dir + ["items"] + [Number(j)])
    ensures StoredSoFar(first, now, dir, paths, items + [item], |items| + 1)
  {
    var more := items + [item];
    forall j | 0 <= j < |more|
      ensures more[j].stored == Number(j) && IsStored(first, now, dir, paths[j], more[j])
    {
      assert StoredAt(dir, more[j]) == dir + ["items"] + [more[j].stored];
    }
  }

  lemma NoNumberYet(n: Node, temp: Path)
    requires IsDir(n, temp) && Find(n, temp).node.kids == map[]
    ensures forall j: nat :: Find(n, temp + [Number(j)]) == Missing
  {
    forall j: nat
      ensures Find(n, temp + [Number(j)]) == Missing
    {
      FindKid(n, temp, Number(j));
    }
  }

  /** The loop of `Create` over the paths, in the empty directory of the snapshot's items. */
  method StoreAll(disk: Disk, dir: Path, paths: seq<Path>) returns (items: seq<Item>, size: nat, ok: bool)
    requires disk.root.Dir? && forall p <- paths :: p == [] || Apart(p, dir)
    requires IsDir(disk.root, dir + ["items"]) && Find(disk.root, dir + ["items"]).node.kids == map[]
    modifies disk
    ensures Confined(old(disk.root), disk.root, dir + ["items"]) && IsDir(disk.root, dir + ["items"])
    ensures disk.Counted(ok, !AllStorable(old(disk.root), paths))
    ensures ok ==> AllStorable(old(disk.root), paths)
    ensures ok ==> |items| == |paths|
    ensures ok ==> forall i :: 0 <= i < |paths| ==> IsStored(old(disk.root), disk.root, dir, paths[i], items[i])
    ensures ok ==> size == TotalSize(old(disk.root), paths)
  {
    var temp := dir + ["items"];
    items, size := [], 0;
    NoNumberYet(disk.root, temp);
    ghost var first := disk.root;
    for i := 0 to |paths|
      invariant Confined(first, disk.root, temp) && IsDir(disk.root, temp)
      invariant disk.errors == old(disk.errors) && disk.faults == old(disk.faults)
      invariant size == TotalSize(first, paths[..i])
      invariant StoredSoFar(first, disk.root, dir, paths, items, i)
    {
      ghost var before := disk.root;
      var item, copied, kept := StoreOne(disk, dir, paths[i], i);
      assert paths[i] in paths && (paths[i] != [] ==> Find(before, paths[i]) == Find(first, paths[i]));
      SeenBefore(first, before, disk.root, dir, paths[i], item);
      if !kept {
        return [], 0, false;
      }
      TotalSizeNext(first, paths, i);
      ConfinedTwice(first, before, disk.root, temp);
      StoredOneMore(first, before, disk.root, dir, paths, items, item);
      items := items + [item];
      size := size + copied;
    }
    assert paths[..|paths|] == paths;
    return items, size, true;
  }

  /** What is at the paths is the same in both trees. */
  lemma {:induction false} SameThere(a: Node, b: Node, paths: seq<Path>)
    requires forall p <- paths :: p != [] ==> Find(b, p) == Find(a, p)
    ensures AllStorable(b, paths) <==> AllStorable(a, paths)
    ensures AllStorable(a, paths) ==> TotalSize(b, paths) == TotalSize(a, paths)
  {
    if paths != [] {
      var most := paths[..|paths| - 1];
      assert forall p <- most :: p in paths;
      assert paths[|paths| - 1] in paths && (AllStorable(a, paths) ==> AllStorable(a, most));
      SameThere(a, b, most);
    }
  }

  lemma StoredSince(a: Node, b: Node, now: Node, dir: Path, paths: seq<Path>, items: seq<Item>)
    requires forall p <- paths :: p != [] ==> Find(b, p) == Find(a, p)
    requires |items| == |paths| && AllStorable(b, paths)
    requires forall i :: 0 <= i < |paths| ==> IsStored(b, now, dir, paths[i], items[i])
    ensures forall i :: 0 <= i < |paths| ==> IsStored(a, now, dir, paths[i], items[i])
  {
    forall i | 0 <= i < |paths|
      ensures IsStored(a, now, dir, paths[i], items[i])
    {
      assert paths[i] in paths && Storable(b, paths[i]);
    }
  }

  /** Makes the directories of a new snapshot. */
  method MakeItemsDirectory(disk: Disk, dir: Path) returns (ok: bool)
    requires disk.root.Dir? && dir != [] && Find(disk.root, dir) == Missing
    modifies disk
    ensures Confined(old(disk.root), disk.root, dir)
    ensures disk.Counted(ok, false)
    ensures ok ==>
              && IsDir(disk.root, dir) && IsDir(disk.root, dir + ["items"])
              && Find(disk.root, dir + ["items"]).node.kids == map[]
    ensures ok ==> Find(disk.root, dir + ["snapshot.json"]) == Missing
  {
    var inner := dir + ["items"];
    ghost var before := disk.root;
    FindConcat(before, dir, ["items"]);
    FindConcat(before, dir, ["snapshot.json"]);
    ok := disk.MkdirAll(inner, inner);
    FindConcat(disk.root, dir, ["items"]);
    KidsApart(dir, "snapshot.json", "items");
    forall r: Path | !(dir <= r)
      ensures Apart(r, dir) ==> Find(disk.root, r) == Find(before, r)
      ensures r <= dir && IsDir(before, r) ==>
                IsDir(disk.root, r) && Find(disk.root, r).node.mode == Find(before, r).node.mode
      ensures r <= dir && Find(before, r) == Missing ==> Find(disk.root, r) == Missing || IsDir(disk.root, r)
    {
      if Apart(r, dir) {
        InsideApart(r, dir, inner);
      } else {
        assert r <= inner && r != inner;
      }
    }
  }

  /** Writes `snapshot.json`; the items stay. */
  method WriteRecord(disk: Disk, dir: Path, data: seq<Byte>) returns (ok: bool)
    requires disk.root.Dir? && dir != [] && IsDir(disk.root, dir) && Find(disk.root, dir + ["snapshot.json"]) == Missing
    modifies disk
    ensures Confined(old(disk.root), disk.root, dir) && IsDir(disk.root, dir)
    ensures disk.Counted(ok, false)
    ensures ok ==> var l := Find(disk.root, dir + ["snapshot.json"]); l.Found? && l.node.File? && l.node.data == data
    ensures forall item: Item :: Find(disk.root, StoredAt(dir, item)) == Find(old(disk.root), StoredAt(dir, item))
  {
    var file := dir + ["snapshot.json"];
    assert Parent(file) == dir;
    ok := disk.WriteFile(file, data);
    ConfinedToKid(old(disk.root), disk.root, dir, "snapshot.json");
    KidsApart(dir, "items", "snapshot.json");
    forall item: Item
      ensures Apart(StoredAt(dir, item), file)
    {
      InsideApart(file, dir + ["items"], StoredAt(dir, item));
    }
  }

  /** A change at one number leaves the others alone. */
  lemma OthersStay(before: Node, now: Node, temp: Path, i: nat)
    requires Confined(before, now, temp + [Number(i)])
    ensures forall j: nat :: j != i ==> Find(now, temp + [Number(j)]) == Find(before, temp + [Number(j)])
  {
    forall j: nat | j != i
      ensures Find(now, temp + [Number(j)]) == Find(before, temp + [Number(j)])
    {
      if Number(j) == Number(i) {
        NumbersDiffer(i, j);
      }
      KidsApart(temp, Number(j), Number(i));
    }
  }
}
