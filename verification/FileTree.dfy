/** Trees of files, and edits at one path of them. */
module FileTree {
  import opened Prelude

  type Path = seq<string>

  /** Permission bits, and the set-user, set-group and sticky bits. */
  datatype Mode = Mode(perm: nat, special: nat)

  datatype Node =
    | File(mode: Mode, data: seq<Byte>)
    | Link(target: string)
    | Dir(mode: Mode, kids: map<string, Node>)
    | Device

  datatype Lookup = Found(node: Node) | Missing | NotDir

  function Find(n: Node, p: Path): Lookup
    decreases |p|
  {
    if p == [] then Found(n)
    else if !n.Dir? then NotDir
    else if p[0] !in n.kids then Missing
    else Find(n.kids[p[0]], p[1..])
  }

  /** Neither path is inside the other. */
  predicate Apart(p: Path, q: Path) {
    !(p <= q) && !(q <= p)
  }

  function Parent(p: Path): Path
    requires p != []
  {
    p[..|p| - 1]
  }

  predicate IsDir(n: Node, p: Path) {
    Find(n, p).Found? && Find(n, p).node.Dir?
  }

  /** Makes `o` of what is at `p`; without a directory to hold it, nothing. */
  function Set(n: Node, p: Path, o: Option<Node>): Node
    requires p != []
    decreases |p|
  {
    if !n.Dir? then n
    else if |p| == 1 then n.(kids := if o.Some? then n.kids[p[0] := o.value] else n.kids - {p[0]})
    else if p[0] in n.kids then n.(kids := n.kids[p[0] := Set(n.kids[p[0]], p[1..], o)])
    else n
  }

  function AsLookup(o: Option<Node>): Lookup {
    if o.Some? then Found(o.value) else Missing
  }

  // ----- Laws -----

  lemma {:induction false} FindConcat(n: Node, p: Path, q: Path)
    ensures Find(n, p + q) == if Find(n, p).Found? then Find(Find(n, p).node, q) else Find(n, p)
    decreases |p|
  {
    if p == [] {
      assert p + q == q;
    } else if n.Dir? && p[0] in n.kids {
      assert (p + q)[1..] == p[1..] + q;
      FindConcat(n.kids[p[0]], p[1..], q);
    }
  }

  lemma FindKid(n: Node, p: Path, k: string)
    requires IsDir(n, p)
    ensures Find(n, p + [k]) == if k in Find(n, p).node.kids then Found(Find(n, p).node.kids[k]) else Missing
  {
    FindConcat(n, p, [k]);
  }

  lemma {:induction false} FindSet(n: Node, p: Path, o: Option<Node>)
    requires p != [] && IsDir(n, Parent(p))
    ensures Find(Set(n, p, o), p) == AsLookup(o)
    decreases |p|
  {
    if |p| > 1 {
      assert Parent(p)[1..] == Parent(p[1..]);
      FindSet(n.kids[p[0]], p[1..], o);
    }
  }

  /** Whether `r` is beside `p`, or above it. */
  lemma {:induction false} SetElsewhere(n: Node, p: Path, o: Option<Node>, r: Path)
    requires p != [] && !(p <= r)
    ensures !(r <= p) ==> Find(Set(n, p, o), r) == Find(n, r)
    ensures IsDir(n, r) ==> IsDir(Set(n, p, o), r) && Find(Set(n, p, o), r).node.mode == Find(n, r).node.mode
    ensures Find(n, r) == Missing ==> Find(Set(n, p, o), r) == Missing
    decreases |p|
  {
    if r != [] && r[0] == p[0] && |p| > 1 && n.Dir? && p[0] in n.kids {
      assert p[1..] <= r[1..] ==> p <= r;
      assert r[1..] <= p[1..] ==> r <= p;
      SetElsewhere(n.kids[p[0]], p[1..], o, r[1..]);
    }
  }

  lemma {:induction false} SetReaches(n: Node, p: Path, o: Option<Node>)
    requires p != [] && Find(n, p) != NotDir
    ensures Find(Set(n, p, o), p) != NotDir
    decreases |p|
  {
    if |p| > 1 && n.Dir? && p[0] in n.kids {
      SetReaches(n.kids[p[0]], p[1..], o);
    }
  }

  // ----- Changes confined to one path -----

  /** From `a` to `b` nothing has changed but at `d`, inside it, and in missing directories
      above it. */
  ghost predicate Confined(a: Node, b: Node, d: Path) {
    && (forall r :: Apart(r, d) ==> Find(b, r) == Find(a, r))
    && (forall r: Path :: r <= d && r != d && IsDir(a, r) ==>
          IsDir(b, r) && Find(b, r).node.mode == Find(a, r).node.mode)
    && (forall r: Path :: r <= d && r != d && Find(a, r) == Missing ==> Find(b, r) == Missing || IsDir(b, r))
    && (Find(a, d) != NotDir ==> Find(b, d) != NotDir)
  }

  lemma ConfinedTwice(a: Node, b: Node, c: Node, d: Path)
    requires Confined(a, b, d) && Confined(b, c, d)
    ensures Confined(a, c, d)
  {
  }

  lemma SetIsConfined(n: Node, d: Path, o: Option<Node>)
    requires d != []
    ensures Confined(n, Set(n, d, o), d)
  {
    forall r | !(d <= r)
      ensures Apart(r, d) ==> Find(Set(n, d, o), r) == Find(n, r)
      ensures IsDir(n, r) ==> IsDir(Set(n, d, o), r) && Find(Set(n, d, o), r).node.mode == Find(n, r).node.mode
      ensures Find(n, r) == Missing ==> Find(Set(n, d, o), r) == Missing
    {
      SetElsewhere(n, d, o, r);
    }
    if Find(n, d) != NotDir {
      SetReaches(n, d, o);
    }
  }

  /** What is below something. */
  lemma FindBelow(n: Node, e: Path, r: Path)
    requires e <= r
    ensures Find(n, r) == if Find(n, e).Found? then Find(Find(n, e).node, r[|e|..]) else Find(n, e)
  {
    assert r == e + r[|e|..];
    FindConcat(n, e, r[|e|..]);
  }

  /** A missing directory on the way to `d` is made. */
  lemma MkdirIsConfined(n: Node, e: Path, d: Path, mode: Mode)
    requires e != [] && e <= d && IsDir(n, Parent(e)) && Find(n, e) == Missing
    ensures Confined(n, Set(n, e, Some(Dir(mode, map[]))), d)
  {
    var o := Some(Dir(mode, map[]));
    var m := Set(n, e, o);
    FindSet(n, e, o);
    forall r: Path | !(d <= r)
      ensures Apart(r, d) ==> Find(m, r) == Find(n, r)
      ensures IsDir(n, r) ==> IsDir(m, r) && Find(m, r).node.mode == Find(n, r).node.mode
      ensures r <= d && Find(n, r) == Missing ==> Find(m, r) == Missing || IsDir(m, r)
    {
      if e <= r {
        FindBelow(n, e, r);
        FindBelow(m, e, r);
        assert r == e ==> r <= d;
      } else {
        SetElsewhere(n, e, o, r);
        assert r <= e ==> r <= d;
      }
    }
    FindBelow(n, e, d);
    FindBelow(m, e, d);
  }

  /** A change at a child is a change at its directory. */
  lemma ConfinedToKid(a: Node, b: Node, d: Path, k: string)
    requires IsDir(a, d) && Confined(a, b, d + [k])
    ensures Confined(a, b, d)
    ensures IsDir(b, d) && Find(b, d).node.mode == Find(a, d).node.mode
    ensures Find(b, d).node.kids - {k} == Find(a, d).node.kids - {k}
  {
    var e := d + [k];
    forall r: Path | Apart(r, d)
      ensures Find(b, r) == Find(a, r)
    {
      assert r <= e && |r| <= |d| ==> r <= d;
      assert e <= r ==> d <= r;
      assert Apart(r, e);
    }
    forall r: Path | r <= d && r != d
      ensures IsDir(a, r) ==> IsDir(b, r) && Find(b, r).node.mode == Find(a, r).node.mode
      ensures Find(a, r) == Missing ==> Find(b, r) == Missing || IsDir(b, r)
    {
      assert r <= e && r != e;
    }
    assert d <= e && d != e;
    forall j | j != k
      ensures j in Find(b, d).node.kids <==> j in Find(a, d).node.kids
      ensures j in Find(a, d).node.kids ==> Find(b, d).node.kids[j] == Find(a, d).node.kids[j]
    {
      assert (d + [j])[|d|] == j && (d + [k])[|d|] == k;
      assert Apart(d + [j], e);
      FindKid(a, d, j);
      FindKid(b, d, j);
    }
  }

  // ----- Copies -----

  /** Only the permission bits of the modes. */
  function Plain(n: Node): Node {
    match n
    case File(mode, data) => File(Mode(mode.perm, 0), data)
    case Dir(mode, kids) => Dir(Mode(mode.perm, 0), map k | k in kids :: Plain(kids[k]))
    case _ => n
  }

  function PlainLookup(l: Lookup): Lookup {
    if l.Found? then Found(Plain(l.node)) else l
  }

  /** No file or directory has special bits. */
  ghost predicate IsPlain(n: Node) {
    match n
    case File(mode, _) => mode.special == 0
    case Dir(mode, kids) => mode.special == 0 && forall k :: k in kids ==> IsPlain(kids[k])
    case _ => true
  }

  /** Nothing but files, links and directories. */
  ghost predicate Copyable(n: Node) {
    match n
    case Dir(_, kids) => forall k :: k in kids ==> Copyable(kids[k])
    case _ => !n.Device?
  }

  /** A copy is exact if and only if there are no special bits. */
  lemma {:induction false} PlainIffNoSpecialBits(n: Node)
    ensures Plain(n) == n <==> IsPlain(n)
  {
    if n.Dir? {
      forall k | k in n.kids
        ensures Plain(n.kids[k]) == n.kids[k] <==> IsPlain(n.kids[k])
      {
        PlainIffNoSpecialBits(n.kids[k]);
      }
      if Plain(n) == n {
        forall k | k in n.kids
          ensures IsPlain(n.kids[k])
        {
          assert Plain(n).kids[k] == Plain(n.kids[k]);
        }
      }
    }
  }

  /** A copy of a copy is the same; it can be copied if the original can. */
  lemma {:induction false} PlainTwice(n: Node)
    ensures IsPlain(Plain(n)) && Plain(Plain(n)) == Plain(n)
    ensures Copyable(Plain(n)) <==> Copyable(n)
  {
    if n.Dir? {
      forall k | k in n.kids
        ensures IsPlain(Plain(n.kids[k])) && (Copyable(Plain(n.kids[k])) <==> Copyable(n.kids[k]))
      {
        PlainTwice(n.kids[k]);
      }
      assert Plain(n).kids.Keys == n.kids.Keys;
      if Copyable(Plain(n)) {
        forall k | k in n.kids
          ensures Copyable(n.kids[k])
        {
          assert Plain(n).kids[k] == Plain(n.kids[k]);
        }
      }
    }
    PlainIffNoSpecialBits(Plain(n));
  }

  /** The bytes in the files of a tree. */
  ghost function Size(n: Node): nat
    decreases n, 1, 0
  {
    match n
    case File(_, data) => |data|
    case Dir(_, kids) => SizeOf(n, kids.Keys)
    case _ => 0
  }

  /** The same for some of the entries of a directory. */
  ghost function SizeOf(n: Node, names: set<string>): nat
    requires n.Dir? && names <= n.kids.Keys
    decreases n, 0, |names|
  {
    if names == {} then 0
    else
      var k :| k in names;
      Size(n.kids[k]) + SizeOf(n, names - {k})
  }

  /** The order of the entries is of no account. */
  lemma {:induction false} SizeOfOneMore(n: Node, names: set<string>, k: string)
    requires n.Dir? && names <= n.kids.Keys && k in names
    ensures SizeOf(n, names) == Size(n.kids[k]) + SizeOf(n, names - {k})
    decreases |names|
  {
    var j :| j in names && SizeOf(n, names) == Size(n.kids[j]) + SizeOf(n, names - {j});
    if j != k {
      SizeOfOneMore(n, names - {j}, k);
      SizeOfOneMore(n, names - {k}, j);
      assert names - {j} - {k} == names - {k} - {j};
    }
  }

  lemma {:induction false} SizeOfCopy(n: Node)
    ensures Size(Plain(n)) == Size(n)
    decreases n, 1, 0
  {
    if n.Dir? {
      assert Plain(n).kids.Keys == n.kids.Keys;
      SizeOfCopies(n, n.kids.Keys);
    }
  }

  lemma {:induction false} SizeOfCopies(n: Node, names: set<string>)
    requires n.Dir? && names <= n.kids.Keys
    ensures SizeOf(Plain(n), names) == SizeOf(n, names)
    decreases n, 0, |names|
  {
    if names != {} {
      var k :| k in names;
      SizeOfOneMore(n, names, k);
      SizeOfOneMore(Plain(n), names, k);
      assert Plain(n).kids[k] == Plain(n.kids[k]);
      SizeOfCopy(n.kids[k]);
      SizeOfCopies(n, names - {k});
    }
  }
}
