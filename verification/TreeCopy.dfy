/**
 A file system whose operations can fail, and the recursive copy of a tree in it,
 `copyEntry` of `internal/snapshots/manager.go`.
 */
module TreeCopy {
  import opened Prelude
  import opened FileTree

  datatype Kind = IsLink | IsDirectory | IsRegular | IsSpecial

  /** What `Lstat` tells about an entry. */
  datatype Info = Info(kind: Kind, perm: nat)

  function InfoOf(n: Node): Info {
    match n
    case File(mode, _) => Info(IsRegular, mode.perm)
    case Link(_) => Info(IsLink, 0)
    case Dir(mode, _) => Info(IsDirectory, mode.perm)
    case Device => Info(IsSpecial, 0)
  }

  datatype Stat = Exists(info: Info) | NotExist | Trouble

  /** A file system.  Any operation can fail without a reason to be found in the tree: that is
      a fault.  Every failed operation is an error. */
  class Disk {
    var root: Node
    ghost var errors: nat
    ghost var faults: nat

    constructor (root: Node)
      ensures this.root == root && errors == faults == 0
    {
      this.root, errors, faults := root, 0, 0;
    }

    /** One operation was counted, with its reason. */
    twostate predicate Counted(ok: bool, reason: bool)
      reads this
    {
      if ok then errors == old(errors) && faults == old(faults)
      else errors == old(errors) + 1 && (faults == old(faults) + 1 || (reason && faults == old(faults)))
    }

    method Fault() returns (fault: bool)
      modifies this`errors, this`faults
      ensures if fault then errors == old(errors) + 1 && faults == old(faults) + 1
              else errors == old(errors) && faults == old(faults)
    {
      fault := *;
      if fault {
        errors, faults := errors + 1, faults + 1;
      }
    }

    ghost method Fail()
      modifies this`errors
      ensures errors == old(errors) + 1
    {
      errors := errors + 1;
    }

    method Lstat(p: Path) returns (s: Stat)
      modifies this`errors, this`faults
      ensures s.Exists? ==> Find(root, p).Found? && s.info == InfoOf(Find(root, p).node)
      ensures s.NotExist? ==> Find(root, p) == Missing
      ensures Counted(!s.Trouble?, Find(root, p) == NotDir)
    {
      var fault := Fault();
      if fault {
        return Trouble;
      }
      match Find(root, p)
      case Found(n) => return Exists(InfoOf(n));
      case Missing => return NotExist;
      case NotDir =>
        Fail();
        return Trouble;
    }

    method Readlink(p: Path) returns (target: Option<string>)
      modifies this`errors, this`faults
      ensures target.Some? ==> Find(root, p) == Found(Link(target.value))
      ensures Counted(target.Some?, !(Find(root, p).Found? && Find(root, p).node.Link?))
    {
      var fault := Fault();
      if fault {
        return None;
      }
      var l := Find(root, p);
      if l.Found? && l.node.Link? {
        return Some(l.node.target);
      }
      Fail();
      return None;
    }

    /** The names in a directory. */
    method ReadDir(p: Path) returns (names: Option<seq<string>>)
      modifies this`errors, this`faults
      ensures names.Some? ==> IsDir(root, p) && (forall k :: k in names.value <==> k in Find(root, p).node.kids)
      ensures names.Some? ==> forall i, j :: 0 <= i < j < |names.value| ==> names.value[i] != names.value[j]
      ensures Counted(names.Some?, !IsDir(root, p))
    {
      var fault := Fault();
      if fault {
        return None;
      }
      if !IsDir(root, p) {
        Fail();
        return None;
      }
      var all := Find(root, p).node.kids;
      var out: seq<string> := [];
      while all != map[]
        invariant forall k :: k in Find(root, p).node.kids <==> k in all || k in out
        invariant forall k :: k in out ==> k !in all
        invariant forall i, j :: 0 <= i < j < |out| ==> out[i] != out[j]
        decreases |all|
      {
        var k :| k in all;
        out := out + [k];
        all := all - {k};
      }
      return Some(out);
    }

    method ReadFile(p: Path) returns (data: Option<seq<Byte>>)
      modifies this`errors, this`faults
      ensures data.Some? ==> Find(root, p).Found? && Find(root, p).node.File? && data.value == Find(root, p).node.data
      ensures Counted(data.Some?, !(Find(root, p).Found? && Find(root, p).node.File?))
    {
      var fault := Fault();
      if fault {
        return None;
      }
      var l := Find(root, p);
      if l.Found? && l.node.File? {
        return Some(l.node.data);
      }
      Fail();
      return None;
    }

    /** The new root, with nothing else changed. */
    method Put(p: Path, o: Option<Node>)
      requires p != []
      modifies this`root
      ensures root == Set(old(root), p, o)
      ensures Confined(old(root), root, p)
      ensures IsDir(old(root), Parent(p)) ==> Find(root, p) == AsLookup(o)
    {
      SetIsConfined(root, p, o);
      if IsDir(root, Parent(p)) {
        FindSet(root, p, o);
      }
      root := Set(root, p, o);
    }

    /** Makes the directory `e`, unless it is there; the process decides on the mode. */
    method Mkdir(e: Path, ghost d: Path) returns (ok: bool)
      requires e != [] && e <= d && IsDir(root, Parent(e))
      modifies this
      ensures Confined(old(root), root, d)
      ensures ok ==> IsDir(root, e) && (old(Find(root, e)) == Missing || old(IsDir(root, e)))
      ensures ok && old(IsDir(root, e)) ==> root == old(root)
      ensures ok && old(Find(root, e)) == Missing ==> Find(root, e).node.kids == map[]
      ensures Counted(ok, old(Find(root, e)) != Missing && !old(IsDir(root, e)))
    {
      var fault := Fault();
      if fault {
        return false;
      }
      if Find(root, e) == Missing {
        var mode: Mode := *;
        MkdirIsConfined(root, e, d, mode);
        Put(e, Some(Dir(mode, map[])));
      } else if !IsDir(root, e) {
        Fail();
        return false;
      }
      return true;
    }

    /** Makes `p` and what is missing above it. */
    method MkdirAll(p: Path, ghost d: Path) returns (ok: bool)
      requires root.Dir? && p <= d
      modifies this
      ensures Confined(old(root), root, d)
      ensures ok ==> IsDir(root, p)
      ensures ok && old(IsDir(root, p)) ==> root == old(root)
      ensures ok && old(Find(root, p)) == Missing ==> Find(root, p).node.kids == map[]
      ensures Counted(ok, old(Find(root, p)) != Missing && !old(IsDir(root, p)))
    {
      assert p[..0] == [];
      for i := 0 to |p|
        invariant IsDir(root, p[..i])
        invariant Confined(old(root), root, d)
        invariant i < |p| ==> Find(root, p) == old(Find(root, p))
        invariant i == |p| && old(Find(root, p)) == Missing ==>
                    Find(root, p).Found? && Find(root, p).node.Dir? && Find(root, p).node.kids == map[]
        invariant old(IsDir(root, p)) ==> root == old(root)
        invariant errors == old(errors) && faults == old(faults)
      {
        var e := p[..i + 1];
        assert Parent(e) == p[..i] && p == p[..|p|] && e <= p <= d;
        ghost var before := root;
        FindBelow(root, e, p);
        ok := Mkdir(e, d);
        if !ok {
          return;
        }
        ConfinedTwice(old(root), before, root, d);
        FindBelow(root, e, p);
      }
      assert p[..|p|] == p;
      return true;
    }

    /** Sets the permission bits, and clears the special ones. */
    method Chmod(p: Path, perm: nat)
      requires p != [] && Find(root, p).Found? && (Find(root, p).node.Dir? || Find(root, p).node.File?)
      modifies this`root
      ensures Confined(old(root), root, p)
      ensures Find(root, p) == Found(old(Find(root, p).node).(mode := Mode(perm, 0)))
    {
      FindBelow(root, Parent(p), p);
      Put(p, Some(Find(root, p).node.(mode := Mode(perm, 0))));
    }

    method Symlink(target: string, p: Path) returns (ok: bool)
      requires p != []
      modifies this
      ensures Confined(old(root), root, p)
      ensures ok ==> Find(root, p) == Found(Link(target))
      ensures Counted(ok, !old(IsDir(root, Parent(p))) || old(Find(root, p)) != Missing)
    {
      var fault := Fault();
      if fault {
        return false;
      }
      if !IsDir(root, Parent(p)) || Find(root, p) != Missing {
        Fail();
        return false;
      }
      Put(p, Some(Link(target)));
      return true;
    }

    /** Opens `p`, writes `data` and closes it; a fault leaves anything in the file. */
    method WriteFile(p: Path, data: seq<Byte>) returns (ok: bool)
      requires p != []
      modifies this
      ensures Confined(old(root), root, p)
      ensures ok ==> Find(root, p).Found? && Find(root, p).node.File? && Find(root, p).node.data == data
      ensures var was := old(Find(root, p));
              Counted(ok, !old(IsDir(root, Parent(p))) || !(was == Missing || (was.Found? && was.node.File?)))
    {
      var l := Find(root, p);
      if !IsDir(root, Parent(p)) || !(l == Missing || (l.Found? && l.node.File?)) {
        Fail();
        return false;
      }
      var mode: Mode := *;
      if l.Found? {
        mode := l.node.mode;
      }
      var fault := Fault();
      if fault {
        var partial: seq<Byte>, touched: bool := *, *;
        if touched {
          Put(p, Some(File(mode, partial)));
        }
        return false;
      }
      Put(p, Some(File(mode, data)));
      return true;
    }

    /** A copy whose source could not be read may have left part of a file. */
    method BreakOff(p: Path)
      requires p != []
      modifies this`root
      ensures Confined(old(root), root, p)
    {
      var mode: Mode, partial: seq<Byte>, touched: bool := *, *, *;
      if touched {
        Put(p, Some(File(mode, partial)));
      }
    }

    /** A fault leaves anything at `p`. */
    method RemoveAll(p: Path) returns (ok: bool)
      requires p != []
      modifies this
      ensures Confined(old(root), root, p)
      ensures ok ==> Find(root, p) == Missing
      ensures ok && old(Find(root, p)) == Missing ==> root == old(root)
      ensures Counted(ok, old(Find(root, p)) == NotDir)
    {
      if Find(root, p) == NotDir {
        Fail();
        return false;
      }
      var fault := Fault();
      if fault {
        var rest: Option<Node> := *;
        Put(p, rest);
        return false;
      }
      if Find(root, p).Found? {
        FindBelow(root, Parent(p), p);
        Put(p, None);
      }
      return true;
    }

    /** A new directory inside `dir`. */
    method MkdirTemp(dir: Path) returns (p: Option<Path>)
      modifies this
      ensures p.Some? ==> p.value != [] && Parent(p.value) == dir && old(Find(root, p.value)) == Missing
                          && IsDir(root, p.value) && Find(root, p.value).node.kids == map[]
                          && Confined(old(root), root, p.value)
      ensures p.None? ==> root == old(root)
      ensures Counted(p.Some?, !old(IsDir(root, dir)))
    {
      if !IsDir(root, dir) {
        Fail();
        return None;
      }
      var name: string, mode: Mode := *, *;
      var q := dir + [name];
      FindKid(root, dir, name);
      var fault := Fault();
      if fault || Find(root, q) != Missing {
        if !fault {
          errors, faults := errors + 1, faults + 1;
        }
        return None;
      }
      assert Parent(q) == dir;
      Put(q, Some(Dir(mode, map[])));
      return Some(q);
    }
  }

  // ----- Copying -----

  /** The copy of a directory as far as some of its entries go. */
  ghost function PartialCopy(n: Node, done: set<string>): Node
    requires n.Dir?
  {
    Dir(Mode(n.mode.perm, 0), map k | k in done && k in n.kids :: Plain(n.kids[k]))
  }

  lemma CopyOneMore(a: Node, b: Node, d: Path, n: Node, done: set<string>, k: string)
    requires n.Dir? && k in n.kids && k !in done
    requires Find(a, d) == Found(PartialCopy(n, done))
    requires Confined(a, b, d + [k]) && Find(b, d + [k]) == Found(Plain(n.kids[k]))
    ensures Find(b, d) == Found(PartialCopy(n, done + {k}))
  {
    ConfinedToKid(a, b, d, k);
    FindKid(b, d, k);
    var now := Find(b, d).node;
    forall j
      ensures j in now.kids <==> j in PartialCopy(n, done + {k}).kids
      ensures j in now.kids ==> now.kids[j] == PartialCopy(n, done + {k}).kids[j]
    {
      if j != k {
        assert j in now.kids <==> j in now.kids - {k};
        assert j in PartialCopy(n, done).kids <==> j in PartialCopy(n, done).kids - {k};
      }
    }
    assert now.kids == PartialCopy(n, done + {k}).kids;
  }

  lemma OneMoreDone(n: Node, done: set<string>, k: string)
    requires n.Dir? && done <= n.kids.Keys && k in n.kids && k !in done
    ensures SizeOf(n, done + {k}) == SizeOf(n, done) + Size(n.kids[k])
  {
    SizeOfOneMore(n, done + {k}, k);
    assert done + {k} - {k} == done;
  }

  lemma WholeCopy(n: Node, done: set<string>)
    requires n.Dir? && forall k :: k in done <==> k in n.kids
    ensures PartialCopy(n, done) == Plain(n)
    ensures done == n.kids.Keys
  {
  }

  lemma PrefixOfLonger(r: Path, q: Path, k: string)
    requires r <= q + [k]
    ensures r <= q || r == q + [k]
  {
    if |r| <= |q| {
      assert r == (q + [k])[..|r|] == q[..|r|];
    }
  }

  lemma ApartBelow(p: Path, q: Path, k: string)
    requires Apart(p, q)
    ensures Apart(p + [k], q + [k]) && Apart(p, q + [k]) && Apart(p + [k], q)
  {
    if p <= q + [k] {
      PrefixOfLonger(p, q, k);
    }
    if q <= p + [k] {
      PrefixOfLonger(q, p, k);
    }
    assert !(p + [k] <= q) && !(p + [k] <= q + [k]);
    assert !(q + [k] <= p) && !(q + [k] <= p + [k]);
  }

  /** `copyEntry`.  Into a place where there is nothing, it makes an exact copy, but for
      special bits, and returns the sum of the file sizes.  It fails only by a fault or when
      there is something else than files, links and directories. */
  method CopyEntry(disk: Disk, src: Path, dst: Path, info: Info) returns (size: nat, ok: bool)
    requires disk.root.Dir? && dst != [] && Apart(src, dst)
    requires Find(disk.root, src).Found? && info == InfoOf(Find(disk.root, src).node)
    modifies disk
    ensures Confined(old(disk.root), disk.root, dst)
    ensures disk.Counted(ok, !Copyable(old(Find(disk.root, src).node)) || old(Find(disk.root, dst)) != Missing)
    ensures ok && old(Find(disk.root, dst)) == Missing ==>
              && Copyable(old(Find(disk.root, src).node))
              && Find(disk.root, dst) == Found(Plain(old(Find(disk.root, src).node)))
              && size == Size(old(Find(disk.root, src).node))
    decreases Find(disk.root, src).node, 2
  {
    match info.kind {
      case IsLink =>
        ok := CopyLink(disk, src, dst);
        size := 0;
      case IsDirectory =>
        size, ok := CopyDirectory(disk, src, dst, info.perm);
      case IsRegular =>
        size, ok := CopyRegular(disk, src, dst, info.perm);
      case IsSpecial =>
        disk.Fail();
        return 0, false;
    }
  }

  method CopyLink(disk: Disk, src: Path, dst: Path) returns (ok: bool)
    requires disk.root.Dir? && dst != [] && Apart(src, dst)
    requires Find(disk.root, src).Found? && Find(disk.root, src).node.Link?
    modifies disk
    ensures Confined(old(disk.root), disk.root, dst)
    ensures disk.Counted(ok, old(Find(disk.root, dst)) != Missing)
    ensures ok ==> Find(disk.root, dst) == old(Find(disk.root, src))
  {
    var target := disk.Readlink(src);
    if target.None? {
      return false;
    }
    var made := ParentOf(disk, dst);
    if !made {
      return false;
    }
    ghost var mid := disk.root;
    ok := disk.Symlink(target.value, dst);
    ConfinedTwice(old(disk.root), mid, disk.root, dst);
  }

  /** Makes the directory that is to hold `dst`. */
  method ParentOf(disk: Disk, dst: Path) returns (ok: bool)
    requires disk.root.Dir? && dst != []
    modifies disk
    ensures Confined(old(disk.root), disk.root, dst)
    ensures ok ==> IsDir(disk.root, Parent(dst))
    ensures ok && old(Find(disk.root, dst)) == Missing ==> Find(disk.root, dst) == Missing
    ensures ok && old(IsDir(disk.root, Parent(dst))) ==> disk.root == old(disk.root)
    ensures disk.Counted(ok, old(Find(disk.root, dst)) == NotDir)
  {
    FindBelow(disk.root, Parent(dst), dst);
    ok := disk.MkdirAll(Parent(dst), dst);
    FindBelow(disk.root, Parent(dst), dst);
  }

  method CopyRegular(disk: Disk, src: Path, dst: Path, perm: nat) returns (size: nat, ok: bool)
    requires disk.root.Dir? && dst != [] && Apart(src, dst)
    requires Find(disk.root, src).Found? && Find(disk.root, src).node.File?
             && Find(disk.root, src).node.mode.perm == perm
    modifies disk
    ensures Confined(old(disk.root), disk.root, dst)
    ensures disk.Counted(ok, old(Find(disk.root, dst)) != Missing)
    ensures ok ==>
              && Find(disk.root, dst) == Found(Plain(old(Find(disk.root, src).node)))
              && size == |old(Find(disk.root, src).node).data|
  {
    var made := ParentOf(disk, dst);
    if !made {
      return 0, false;
    }
    ghost var mid := disk.root;
    var data := disk.ReadFile(src);
    if data.None? {
      disk.BreakOff(dst);
      ConfinedTwice(old(disk.root), mid, disk.root, dst);
      return 0, false;
    }
    ok := disk.WriteFile(dst, data.value);
    ConfinedTwice(old(disk.root), mid, disk.root, dst);
    if !ok {
      return 0, false;
    }
    mid := disk.root;
    disk.Chmod(dst, perm);
    ConfinedTwice(old(disk.root), mid, disk.root, dst);
    return |data.value|, true;
  }

  method CopyDirectory(disk: Disk, src: Path, dst: Path, perm: nat) returns (size: nat, ok: bool)
    requires disk.root.Dir? && dst != [] && Apart(src, dst)
    requires IsDir(disk.root, src) && Find(disk.root, src).node.mode.perm == perm
    modifies disk
    ensures Confined(old(disk.root), disk.root, dst)
    ensures disk.Counted(ok, !Copyable(old(Find(disk.root, src).node)) || old(Find(disk.root, dst)) != Missing)
    ensures ok && old(Find(disk.root, dst)) == Missing ==>
              && Copyable(old(Find(disk.root, src).node))
              && Find(disk.root, dst) == Found(Plain(old(Find(disk.root, src).node)))
              && size == Size(old(Find(disk.root, src).node))
    decreases Find(disk.root, src).node, 1
  {
    var entered := EnterDirectory(disk, dst, perm);
    if !entered {
      return 0, false;
    }
    var names := disk.ReadDir(src);
    if names.None? {
      return 0, false;
    }
    ghost var mid := disk.root;
    size, ok := CopyKids(disk, src, dst, names.value);
    ConfinedTwice(old(disk.root), mid, disk.root, dst);
  }

  /** The entries of `done` have been copied, and `size` bytes with them. */
  ghost predicate CopiedSoFar(n: Node, root: Node, dst: Path, done: set<string>, size: nat)
    requires n.Dir?
  {
    && done <= n.kids.Keys
    && Find(root, dst) == Found(PartialCopy(n, done))
    && size == SizeOf(n, done)
    && forall k <- done :: Copyable(n.kids[k])
  }

  /** The loop over the entries of a directory. */
  method CopyKids(disk: Disk, src: Path, dst: Path, names: seq<string>) returns (size: nat, ok: bool)
    requires disk.root.Dir? && Apart(src, dst) && IsDir(disk.root, src) && IsDir(disk.root, dst)
    requires forall k :: k in names <==> k in Find(disk.root, src).node.kids
    requires forall i, j :: 0 <= i < j < |names| ==> names[i] != names[j]
    modifies disk
    ensures Confined(old(disk.root), disk.root, dst)
    ensures var node := old(Find(disk.root, src).node);
            var blank := old(CopiedSoFar(Find(disk.root, src).node, disk.root, dst, {}, 0));
            && disk.Counted(ok, !Copyable(node) || !blank)
            && (ok && blank ==> Copyable(node) && Find(disk.root, dst) == Found(Plain(node)) && size == Size(node))
    decreases Find(disk.root, src).node, 0
  {
    ghost var node := Find(disk.root, src).node;
    ghost var blank := CopiedSoFar(node, disk.root, dst, {}, 0);
    size, ok := 0, true;
    ghost var done: set<string> := {};
    for i := 0 to |names|
      invariant Confined(old(disk.root), disk.root, dst) && IsDir(disk.root, dst)
      invariant Find(disk.root, src) == Found(node)
      invariant ok && disk.errors == old(disk.errors) && disk.faults == old(disk.faults)
      invariant done == (set k | k in names[..i])
      invariant blank ==> CopiedSoFar(node, disk.root, dst, done, size)
    {
      var k := names[i];
      assert node == Dir(node.mode, node.kids) && k in node.kids;
      ghost var before := disk.root;
      size, ok := CopyKid(disk, src, dst, k, size, done);
      if !ok {
        return;
      }
      ConfinedTwice(old(disk.root), before, disk.root, dst);
      done := done + {k};
    }
    assert names[..|names|] == names;
    WholeCopy(node, done);
  }

  /** Makes the copy of a directory itself. */
  method EnterDirectory(disk: Disk, dst: Path, perm: nat) returns (ok: bool)
    requires disk.root.Dir? && dst != []
    modifies disk
    ensures Confined(old(disk.root), disk.root, dst)
    ensures disk.Counted(ok, old(Find(disk.root, dst)) != Missing)
    ensures ok ==> IsDir(disk.root, dst)
    ensures ok && old(Find(disk.root, dst)) == Missing ==> Find(disk.root, dst) == Found(Dir(Mode(perm, 0), map[]))
  {
    ok := disk.MkdirAll(dst, dst);
    if ok {
      ghost var mid := disk.root;
      disk.Chmod(dst, perm);
      ConfinedTwice(old(disk.root), mid, disk.root, dst);
    }
  }

  /** Copies one entry of a directory into the copy of the directory. */
  method CopyKid(disk: Disk, src: Path, dst: Path, k: string, total: nat, ghost done: set<string>)
    returns (sum: nat, ok: bool)
    requires disk.root.Dir? && Apart(src, dst)
    requires IsDir(disk.root, src) && k in Find(disk.root, src).node.kids && IsDir(disk.root, dst) && k !in done
    modifies disk
    ensures Confined(old(disk.root), disk.root, dst) && IsDir(disk.root, dst)
    ensures Find(disk.root, src) == old(Find(disk.root, src))
    ensures var node := old(Find(disk.root, src).node);
            var before := old(CopiedSoFar(Find(disk.root, src).node, disk.root, dst, done, total));
            && disk.Counted(ok, !Copyable(node.kids[k]) || !before)
            && (ok && before ==> CopiedSoFar(node, disk.root, dst, done + {k}, sum))
    decreases Find(disk.root, src).node.kids[k], 3
  {
    ghost var node, before := Find(disk.root, src).node, disk.root;
    FindKid(disk.root, src, k);
    FindKid(disk.root, dst, k);
    ApartBelow(src, dst, k);
    sum := total;
    var stat := disk.Lstat(src + [k]);
    if !stat.Exists? {
      return sum, false;
    }
    var size;
    size, ok := CopyEntry(disk, src + [k], dst + [k], stat.info);
    sum := sum + size;
    ConfinedToKid(before, disk.root, dst, k);
    if ok && CopiedSoFar(node, before, dst, done, total) {
      CopyOneMore(before, disk.root, dst, node, done, k);
      OneMoreDone(node, done, k);
    }
  }
}
