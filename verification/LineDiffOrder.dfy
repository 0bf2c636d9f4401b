/**
 Which of the diffs with the fewest changes the greedy backtrace of `internal/files/versions.go`
 picks: it comes before all others.
 */
module LineDiffOrder {
  import opened LineDiff

  ghost function Rank(tag: Tag): nat {
    match tag
    case Same => 0
    case Removed => 1
    case Added => 2
  }

  /** The order of scripts by their first different tag. */
  ghost predicate Precedes(s: seq<Entry>, t: seq<Entry>) {
    s != [] && t != [] && (if s[0] == t[0] then Precedes(s[1..], t[1..]) else Rank(s[0].tag) < Rank(t[0].tag))
  }

  lemma {:induction false} LcsOfSuffixes(a: seq<Line>, b: seq<Line>, i: nat, j: nat, x: nat, y: nat)
    requires i + x <= |a| && j + y <= |b|
    ensures Lcs(a[i..], b[j..], x, y) == Lcs(a, b, i + x, j + y)
    decreases |a| - i - x + |b| - j - y
  {
    if i + x < |a| && j + y < |b| {
      LcsOfSuffixes(a, b, i, j, x + 1, y + 1);
      LcsOfSuffixes(a, b, i, j, x + 1, y);
      LcsOfSuffixes(a, b, i, j, x, y + 1);
    }
  }

  /** No script between two suffixes keeps more lines than their longest common subsequence. */
  lemma SuffixBound(a: seq<Line>, b: seq<Line>, i: nat, j: nat, t: seq<Entry>)
    requires i <= |a| && j <= |b| && IsScript(t, a[i..], b[j..])
    ensures SameCount(t) <= Lcs(a, b, i, j)
  {
    LcsIsUpperBound(t, a[i..], b[j..]);
    LcsOfSuffixes(a, b, i, j, 0, 0);
  }

  /** The first entry of a script, and the script behind it. */
  lemma FirstEntry(a: seq<Line>, b: seq<Line>, i: nat, j: nat, t: seq<Entry>)
    requires i <= |a| && j <= |b| && t != [] && IsScript(t, a[i..], b[j..])
    ensures t[0].tag != Added ==> i < |a| && t[0].line == a[i]
    ensures t[0].tag != Removed ==> j < |b| && t[0].line == b[j]
    ensures IsScript(t[1..], if t[0].tag == Added then a[i..] else a[i + 1..],
                     if t[0].tag == Removed then b[j..] else b[j + 1..])
    ensures SameCount(t) == (if t[0].tag == Same then 1 else 0) + SameCount(t[1..])
  {
    Prepend(t[0], t[1..]);
    assert t == [t[0]] + t[1..];
    if t[0].tag != Added {
      assert a[i..][0] == t[0].line && a[i..][1..] == OldSide(t[1..]);
    }
    if t[0].tag != Removed {
      assert b[j..][0] == t[0].line && b[j..][1..] == NewSide(t[1..]);
    }
  }

  /** Of all scripts that keep most lines `First` is the first. */
  lemma {:induction false} FirstPrecedes(a: seq<Line>, b: seq<Line>, i: nat, j: nat, t: seq<Entry>)
    requires i <= |a| && j <= |b| && IsScript(t, a[i..], b[j..]) && SameCount(t) == Lcs(a, b, i, j)
    ensures t == First(a, b, i, j) || Precedes(First(a, b, i, j), t)
    decreases |t|
  {
    if t == [] {
      assert |a[i..]| == 0 && |b[j..]| == 0;
    } else {
      FirstEntry(a, b, i, j, t);
      var s := First(a, b, i, j);
      match t[0].tag
      case Same => FirstPrecedes(a, b, i + 1, j + 1, t[1..]);
      case Removed =>
        SuffixBound(a, b, i + 1, j, t[1..]);
        if s[0].tag == Removed {
          FirstPrecedes(a, b, i + 1, j, t[1..]);
        }
      case Added =>
        if s[0].tag == Added {
          FirstPrecedes(a, b, i, j + 1, t[1..]);
        }
    }
  }

  /** So the table diff is the first of all scripts with the fewest changes. */
  lemma TableDiffIsFirst(a: seq<Line>, b: seq<Line>, t: seq<Entry>)
    requires IsScript(t, a, b) && Optimal(t, a, b)
    ensures t == First(a, b, 0, 0) || Precedes(First(a, b, 0, 0), t)
  {
    OptimalIffLcs(t, a, b);
    assert a[0..] == a && b[0..] == b;
    FirstPrecedes(a, b, 0, 0, t);
  }
}
