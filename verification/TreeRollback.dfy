/**
 Why putting copies back one path after the other brings a tree back, even if some of the
 paths lie inside others: what is done at one path is undone by none of the later ones.  And
 when a restore, which also makes the directories above its paths, does the same.
 */
module TreeRollback {
  import opened Prelude
  import opened FileTree

  /** The tree at `p` is a copy of what was there. */
  ghost predicate Undone(first: Node, now: Node, p: Path) {
    Find(now, p) == PlainLookup(Find(first, p))
  }

  /** A path from the `i`-th on is `r` or lies above it. */
  ghost predicate CoveredFrom(paths: seq<Path>, i: nat, r: Path) {
    exists k :: i <= k < |paths| && paths[k] <= r
  }

  /** Where there was a directory there is one; where nothing was there is nothing else. */
  ghost predicate Eased(first: Node, now: Node, r: Path) {
    && (IsDir(first, r) ==> IsDir(now, r))
    && (Find(first, r) == Missing ==> Find(now, r) == Missing || IsDir(now, r))
  }

  /** Outside the paths, and outside `root`, only missing directories have been made. */
  ghost predicate Intact(first: Node, now: Node, paths: seq<Path>, root: Path) {
    forall r :: !(root <= r) && !CoveredFrom(paths, 0, r) ==> Eased(first, now, r)
  }

  /** Before step `i`: what no later step will touch or replace is undone. */
  ghost predicate Progress(first: Node, now: Node, paths: seq<Path>, i: nat) {
    forall j :: 0 <= j < |paths| && !CoveredFrom(paths, i, paths[j]) ==> Undone(first, now, paths[j])
  }

  lemma {:induction false} PlainFind(n: Node, q: Path)
    ensures Find(Plain(n), q) == PlainLookup(Find(n, q))
    decreases |q|
  {
    if q != [] && n.Dir? && q[0] in n.kids {
      assert Plain(n).kids[q[0]] == Plain(n.kids[q[0]]);
      PlainFind(n.kids[q[0]], q[1..]);
    }
  }

  lemma UndoneInside(first: Node, now: Node, p: Path, q: Path)
    requires Undone(first, now, p) && p <= q
    ensures Undone(first, now, q)
  {
    FindBelow(first, p, q);
    FindBelow(now, p, q);
    if Find(first, p).Found? {
      PlainFind(Find(first, p).node, q[|p|..]);
    }
  }

  /** What keeps a path from being reached. */
  lemma {:induction false} Obstacle(n: Node, p: Path) returns (a: Path)
    requires Find(n, p) == NotDir
    ensures a <= p && a != p && Find(n, a).Found? && !Find(n, a).node.Dir?
    decreases |p|
  {
    if !n.Dir? {
      a := [];
    } else {
      var rest := Obstacle(n.kids[p[0]], p[1..]);
      a := [p[0]] + rest;
      assert a[1..] == rest;
    }
  }

  lemma AboveReachable(n: Node, a: Path, p: Path)
    requires a <= p && a != p && Find(n, p) != NotDir
    ensures IsDir(n, a) || Find(n, a) == Missing
  {
    FindBelow(n, a, p);
  }

  lemma CoveredInside(paths: seq<Path>, i: nat, p: Path, q: Path)
    requires p <= q
    ensures CoveredFrom(paths, i, p) ==> CoveredFrom(paths, i, q)
  {
  }

  /** A path above the one whose turn it is has had its own turn. */
  lemma HadItsTurn(paths: seq<Path>, i: nat, k: nat)
    requires i < |paths| && k < |paths| && paths[k] <= paths[i] && paths[k] != paths[i]
    requires !CoveredFrom(paths, i + 1, paths[i])
    ensures !CoveredFrom(paths, i, paths[k])
  {
  }

  /** When its turn comes, nothing above a path that no later step covers is in the way. */
  lemma ClearAbove(first: Node, now: Node, paths: seq<Path>, root: Path, i: nat, a: Path)
    requires i < |paths| && Progress(first, now, paths, i) && Intact(first, now, paths, root)
    requires !CoveredFrom(paths, i + 1, paths[i]) && Find(first, paths[i]) != NotDir && Apart(paths[i], root)
    requires a <= paths[i] && a != paths[i]
    ensures IsDir(now, a) || Find(now, a) == Missing
  {
    AboveReachable(first, a, paths[i]);
    if CoveredFrom(paths, 0, a) {
      var k :| 0 <= k < |paths| && paths[k] <= a;
      HadItsTurn(paths, i, k);
      UndoneInside(first, now, paths[k], a);
    } else {
      assert Eased(first, now, a);
    }
  }

  /** So it can be reached. */
  lemma Reachable(first: Node, now: Node, paths: seq<Path>, root: Path, i: nat)
    requires i < |paths| && Progress(first, now, paths, i) && Intact(first, now, paths, root)
    requires !CoveredFrom(paths, i + 1, paths[i]) && Find(first, paths[i]) != NotDir && Apart(paths[i], root)
    ensures Find(now, paths[i]) != NotDir
  {
    if Find(now, paths[i]) == NotDir {
      var a := Obstacle(now, paths[i]);
      ClearAbove(first, now, paths, root, i, a);
    }
  }

  /** If a path has the same content after a change at it, so have the paths above it. */
  lemma {:induction false} SameAbove(a: Node, b: Node, d: Path, p: Path)
    requires Confined(a, b, d) && p <= d && Find(a, d).Found? && Find(b, d) == Find(a, d)
    ensures Find(b, p) == Find(a, p)
    decreases |d| - |p|
  {
    if p != d {
      var k := d[|p|];
      SameAbove(a, b, d, p + [k]);
      FindBelow(a, p, d);
      assert IsDir(a, p);
      FindKid(a, p, k);
      FindKid(b, p, k);
      var x, y := Find(a, p).node, Find(b, p).node;
      forall j | j != k
        ensures j in y.kids <==> j in x.kids
        ensures j in x.kids ==> y.kids[j] == x.kids[j]
      {
        assert (p + [j])[|p|] == j;
        assert Apart(p + [j], d);
        FindKid(a, p, j);
        FindKid(b, p, j);
      }
      assert x.kids == y.kids;
    }
  }

  /** One step of the rollback, if its path can be reached or not. */
  lemma StepProgress(first: Node, before: Node, now: Node, paths: seq<Path>, root: Path, i: nat)
    requires i < |paths| && Progress(first, before, paths, i) && Intact(first, before, paths, root)
    requires forall k :: 0 <= k < |paths| ==> Find(first, paths[k]) != NotDir && Apart(paths[k], root)
    requires Confined(before, now, paths[i])
    requires Find(before, paths[i]) != NotDir ==> Undone(first, now, paths[i])
    requires Find(before, paths[i]) == Find(first, paths[i]) == Missing ==> now == before
    ensures Progress(first, now, paths, i + 1)
  {
    var d := paths[i];
    forall j | 0 <= j < |paths| && !CoveredFrom(paths, i + 1, paths[j])
      ensures Undone(first, now, paths[j])
    {
      var p := paths[j];
      if d <= p {
        CoveredInside(paths, i + 1, d, p);
        Reachable(first, before, paths, root, i);
        UndoneInside(first, now, d, p);
      } else {
        assert !CoveredFrom(paths, i, p);
        if p <= d {
          UndoneInside(first, before, p, d);
          if Find(before, d).Found? {
            PlainTwiceFind(first, before, now, d);
            SameAbove(before, now, d, p);
          }
        }
      }
    }
  }

  lemma PlainTwiceFind(first: Node, before: Node, now: Node, d: Path)
    requires Undone(first, before, d) && Undone(first, now, d)
    ensures Find(now, d) == Find(before, d)
  {
  }

  /** Changes at one of the paths leave the rest intact. */
  lemma StaysIntact(first: Node, before: Node, now: Node, paths: seq<Path>, root: Path, i: nat)
    requires i < |paths| && Intact(first, before, paths, root) && Confined(before, now, paths[i])
    ensures Intact(first, now, paths, root)
  {
    forall r | !(root <= r) && !CoveredFrom(paths, 0, r)
      ensures Eased(first, now, r)
    {
      assert Eased(first, before, r);
      assert !(paths[i] <= r);
    }
  }

  lemma ConfinedEases(a: Node, b: Node, d: Path)
    requires Confined(a, b, d)
    ensures forall r :: !(d <= r) ==> Eased(a, b, r)
  {
  }

  // ----- Going forward: copies of one tree -----

  /** A missing directory that a step makes, inside a path that has had its turn, is replaced
      by a later step. */
  ghost predicate Harmless(taken: Node, paths: seq<Path>) {
    forall i, j :: 0 <= j < i < |paths| && paths[i] != [] && paths[j] <= Parent(paths[i])
                   && Find(taken, Parent(paths[i])) == Missing ==>
                     CoveredFrom(paths, i + 1, Parent(paths[i]))
  }

  /** What is there, without what is inside it. */
  function Face(l: Lookup): Lookup {
    if l.Found? && l.node.Dir? then Found(Dir(l.node.mode, map[])) else l
  }

  /** At `r` there is what a copy of `taken` would have there. */
  ghost predicate Alike(taken: Node, now: Node, r: Path) {
    Face(Find(now, r)) == Face(PlainLookup(Find(taken, r)))
  }

  /** Before step `i`: what is in a path that has had its turn, and in no later one, is there. */
  ghost predicate Advanced(taken: Node, now: Node, paths: seq<Path>, i: nat) {
    forall j, r :: 0 <= j < i <= |paths| && paths[j] <= r && !CoveredFrom(paths, i, r) ==> Alike(taken, now, r)
  }

  /** What one step of a restore does: it makes the directory above its path, and puts there
      what was there in `taken`. */
  ghost predicate Step(taken: Node, before: Node, now: Node, d: Path) {
    && d != [] && Confined(before, now, d) && IsDir(now, Parent(d))
    && Undone(taken, now, d) && Find(taken, d) != NotDir
  }

  /** Trees with the same faces everywhere are the same. */
  lemma {:induction false} SameFaces(a: Node, b: Node)
    requires forall q :: Face(Find(a, q)) == Face(Find(b, q))
    ensures a == b
    decreases a
  {
    assert Face(Find(a, [])) == Face(Find(b, []));
    if a.Dir? {
      forall k: string
        ensures k in a.kids <==> k in b.kids
        ensures k in a.kids ==> a.kids[k] == b.kids[k]
      {
        assert [] + [k] == [k] && Face(Find(a, [k])) == Face(Find(b, [k]));
        FindKid(a, [], k);
        FindKid(b, [], k);
        if k in a.kids && k in b.kids {
          forall q
            ensures Face(Find(a.kids[k], q)) == Face(Find(b.kids[k], q))
          {
            assert ([k] + q)[1..] == q;
            assert Face(Find(a, [k] + q)) == Face(Find(b, [k] + q));
          }
          SameFaces(a.kids[k], b.kids[k]);
        }
      }
      assert a.kids == b.kids;
    }
  }

  /** So what is alike everywhere inside a path is undone. */
  lemma AlikeInside(taken: Node, now: Node, p: Path)
    requires forall r :: p <= r ==> Alike(taken, now, r)
    ensures Undone(taken, now, p)
  {
    assert Alike(taken, now, p);
    if Find(now, p).Found? {
      var x, y := Find(now, p).node, Find(taken, p).node;
      forall q
        ensures Face(Find(x, q)) == Face(Find(Plain(y), q))
      {
        FindConcat(now, p, q);
        FindConcat(taken, p, q);
        PlainFind(y, q);
        assert Alike(taken, now, p + q);
      }
      SameFaces(x, Plain(y));
    }
  }

  /** What a step makes inside a path that has had its turn is replaced, wherever it is. */
  lemma {:induction false} MadeIsReplaced(taken: Node, paths: seq<Path>, i: nat, j: nat, r: Path)
    requires Harmless(taken, paths) && j < i < |paths| && paths[i] != []
    requires forall k :: 0 <= k < |paths| ==> paths[k] != []
    requires paths[j] <= r <= Parent(paths[i]) && Find(taken, r) == Missing
    ensures CoveredFrom(paths, i + 1, r)
    decreases |paths| - i
  {
    FindBelow(taken, r, Parent(paths[i]));
    var k :| i + 1 <= k < |paths| && paths[k] <= Parent(paths[i]);
    if !(paths[k] <= r) {
      assert r <= Parent(paths[k]);
      MadeIsReplaced(taken, paths, k, j, r);
    }
  }

  /** What is above the path of a step stays alike, unless the step makes it. */
  lemma StaysAlike(taken: Node, before: Node, now: Node, d: Path, r: Path)
    requires Step(taken, before, now, d) && Alike(taken, before, r) && !(d <= r)
    ensures Alike(taken, now, r) || (r <= Parent(d) && Find(taken, r) == Missing)
  {
    if r <= d {
      AboveReachable(taken, r, d);
    }
  }

  /** One step, if no step does harm. */
  lemma StepAdvances(taken: Node, before: Node, now: Node, paths: seq<Path>, i: nat)
    requires i < |paths| && Harmless(taken, paths) && forall k :: 0 <= k < |paths| ==> paths[k] != []
    requires Advanced(taken, before, paths, i) && Step(taken, before, now, paths[i])
    ensures Advanced(taken, now, paths, i + 1)
  {
    var d := paths[i];
    forall j, r | 0 <= j < i + 1 && paths[j] <= r && !CoveredFrom(paths, i + 1, r)
      ensures Alike(taken, now, r)
    {
      if d <= r {
        UndoneInside(taken, now, d, r);
      } else {
        assert !CoveredFrom(paths, i, r);
        StaysAlike(taken, before, now, d, r);
        if !Alike(taken, now, r) {
          MadeIsReplaced(taken, paths, i, j, r);
        }
      }
    }
  }

  /** Before step `i`: the directory that a step has made is there, unless a step since has
      replaced it. */
  ghost predicate Made(now: Node, paths: seq<Path>, i: nat) {
    forall m :: 0 <= m < i <= |paths| && paths[m] != [] && !CoveredFrom(paths[..i], m + 1, Parent(paths[m])) ==>
                  IsDir(now, Parent(paths[m]))
  }

  lemma StepMakes(before: Node, now: Node, paths: seq<Path>, i: nat)
    requires i < |paths| && Made(before, paths, i)
    requires paths[i] != [] && Confined(before, now, paths[i]) && IsDir(now, Parent(paths[i]))
    ensures Made(now, paths, i + 1)
  {
    forall m | 0 <= m < i && paths[m] != [] && !CoveredFrom(paths[..i + 1], m + 1, Parent(paths[m]))
      ensures IsDir(now, Parent(paths[m]))
    {
      assert paths[..i + 1] == paths[..i] + [paths[i]];
      assert (paths[..i] + [paths[i]])[i] == paths[i];
      assert !(paths[i] <= Parent(paths[m]));
    }
  }

  /** A missing directory that is made and not replaced is in every path that holds it. */
  lemma MissingDirectoryAppears(taken: Node, now: Node, paths: seq<Path>, i: nat, j: nat)
    requires j < i < |paths| && paths[i] != [] && paths[j] <= Parent(paths[i]) && Made(now, paths, |paths|)
    requires Find(taken, Parent(paths[i])) == Missing && !CoveredFrom(paths, i + 1, Parent(paths[i]))
    ensures !Undone(taken, now, paths[j])
  {
    assert paths[..|paths|] == paths;
    assert IsDir(now, Parent(paths[i]));
    if Undone(taken, now, paths[j]) {
      UndoneInside(taken, now, paths[j], Parent(paths[i]));
    }
  }

  /** Behind the last step every path is as it was in `taken` if and only if no step does harm. */
  lemma UndoneIffHarmless(taken: Node, now: Node, paths: seq<Path>)
    requires Harmless(taken, paths) ==> Advanced(taken, now, paths, |paths|)
    requires Made(now, paths, |paths|)
    ensures (forall p <- paths :: Undone(taken, now, p)) <==> Harmless(taken, paths)
  {
    if Harmless(taken, paths) {
      forall j | 0 <= j < |paths|
        ensures Undone(taken, now, paths[j])
      {
        AlikeInside(taken, now, paths[j]);
      }
    } else {
      var i, j :| 0 <= j < i < |paths| && paths[i] != [] && paths[j] <= Parent(paths[i])
                  && Find(taken, Parent(paths[i])) == Missing && !CoveredFrom(paths, i + 1, Parent(paths[i]));
      MissingDirectoryAppears(taken, now, paths, i, j);
    }
  }

  /** What is made inside a path is gone if the path has its turn again, and stays if it has not. */
  lemma SecondTurnIsHarmless(taken: Node, p: Path, q: Path)
    requires q != [] && p <= Parent(q)
    ensures Harmless(taken, [p, q, p])
    ensures Find(taken, Parent(q)) == Missing ==> !Harmless(taken, [p, q])
  {
    var thrice, twice := [p, q, p], [p, q];
    assert thrice[0] == thrice[2] == p && thrice[1] == q;
    assert CoveredFrom(thrice, 2, Parent(q));
    if Find(taken, Parent(q)) == Missing {
      assert twice[0] <= Parent(twice[1]);
      assert !CoveredFrom(twice, 2, Parent(q));
    }
  }
}
