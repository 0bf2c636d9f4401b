/**
 The line diff of `internal/files/versions.go`: the LCS table, its greedy
 backtrace, and the prefix/suffix fallback used for large inputs.  A diff is a
 sequence of tagged lines (an edit script), and it is measured against every
 other edit script between the same two texts.
 */
module LineDiff {

  type Line = string

  datatype Tag = Same | Removed | Added

  datatype Entry = Entry(tag: Tag, line: Line)

  /** A cell of the table, Go's `uint16`: storing a value out of range does not verify. */
  newtype Cell = n: int | 0 <= n < 0x1_0000

  const MAX_LINES := 1200
  const MAX_PRODUCT := 900000

  // ----- Edit scripts -----

  /** The lines of the first text that the first `k` entries of a script account for. */
  ghost function OldTo(s: seq<Entry>, k: nat): seq<Line>
    requires k <= |s|
  {
    if k == 0 then [] else OldTo(s, k - 1) + (if s[k - 1].tag == Added then [] else [s[k - 1].line])
  }

  /** The lines of the second text that the first `k` entries of a script account for. */
  ghost function NewTo(s: seq<Entry>, k: nat): seq<Line>
    requires k <= |s|
  {
    if k == 0 then [] else NewTo(s, k - 1) + (if s[k - 1].tag == Removed then [] else [s[k - 1].line])
  }

  ghost function SameTo(s: seq<Entry>, k: nat): nat
    requires k <= |s|
  {
    if k == 0 then 0 else SameTo(s, k - 1) + (if s[k - 1].tag == Same then 1 else 0)
  }

  /** The text an edit script starts from. */
  ghost function OldSide(s: seq<Entry>): seq<Line> { OldTo(s, |s|) }

  /** The text an edit script arrives at. */
  ghost function NewSide(s: seq<Entry>): seq<Line> { NewTo(s, |s|) }

  /** The number of lines a script keeps. */
  ghost function SameCount(s: seq<Entry>): nat { SameTo(s, |s|) }

  /** The number of lines a script adds or removes. */
  ghost function Changes(s: seq<Entry>): int { |s| - SameCount(s) }

  ghost predicate IsScript(s: seq<Entry>, a: seq<Line>, b: seq<Line>) {
    OldSide(s) == a && NewSide(s) == b
  }

  ghost predicate AllSame(s: seq<Entry>) {
    forall k :: 0 <= k < |s| ==> s[k].tag == Same
  }

  /** All changes lie between `p` unchanged lines and `q` unchanged lines. */
  ghost predicate SingleBlock(s: seq<Entry>, p: nat, q: nat) {
    && p + q <= |s|
    && AllSame(s[..p]) && AllSame(s[|s| - q..])
    && forall k :: p <= k < |s| - q ==> s[k].tag != Same
  }

  ghost predicate Optimal(s: seq<Entry>, a: seq<Line>, b: seq<Line>) {
    forall t: seq<Entry> :: IsScript(t, a, b) ==> Changes(s) <= Changes(t)
  }

  /** No script with all its changes in one block has fewer changes. */
  ghost predicate BlockOptimal(s: seq<Entry>, a: seq<Line>, b: seq<Line>) {
    forall t: seq<Entry>, p: nat, q: nat ::
      IsScript(t, a, b) && SingleBlock(t, p, q) ==> Changes(s) <= Changes(t)
  }

  lemma {:induction false} AppendTo(s: seq<Entry>, t: seq<Entry>, k: nat, u: seq<Entry>)
    requires k <= |t| && u == s + t
    ensures OldTo(u, |s| + k) == OldSide(s) + OldTo(t, k)
    ensures NewTo(u, |s| + k) == NewSide(s) + NewTo(t, k)
    ensures SameTo(u, |s| + k) == SameCount(s) + SameTo(t, k)
  {
    if k == 0 {
      Unaffected(s, t, |s|);
    } else {
      assert u[|s| + k - 1] == t[k - 1];
      AppendTo(s, t, k - 1, u);
    }
  }

  /** Later entries do not change what the earlier ones account for. */
  lemma {:induction false} Unaffected(s: seq<Entry>, t: seq<Entry>, k: nat)
    requires k <= |s|
    ensures OldTo(s + t, k) == OldTo(s, k) && NewTo(s + t, k) == NewTo(s, k) && SameTo(s + t, k) == SameTo(s, k)
  {
    if k > 0 {
      Unaffected(s, t, k - 1);
    }
  }

  lemma ScriptAppend(s: seq<Entry>, t: seq<Entry>)
    ensures OldSide(s + t) == OldSide(s) + OldSide(t)
    ensures NewSide(s + t) == NewSide(s) + NewSide(t)
    ensures SameCount(s + t) == SameCount(s) + SameCount(t)
  {
    AppendTo(s, t, |t|, s + t);
  }

  /** The sides of a script in three parts. */
  lemma ThreeParts(x: seq<Entry>, y: seq<Entry>, z: seq<Entry>)
    ensures OldSide(x + y + z) == OldSide(x) + OldSide(y) + OldSide(z)
    ensures NewSide(x + y + z) == NewSide(x) + NewSide(y) + NewSide(z)
    ensures SameCount(x + y + z) == SameCount(x) + SameCount(y) + SameCount(z)
  {
    ScriptAppend(x + y, z);
    ScriptAppend(x, y);
  }

  /** One more line of output. */
  lemma Emit(s: seq<Entry>, e: Entry)
    ensures OldSide(s + [e]) == OldSide(s) + (if e.tag == Added then [] else [e.line])
    ensures NewSide(s + [e]) == NewSide(s) + (if e.tag == Removed then [] else [e.line])
    ensures SameCount(s + [e]) == SameCount(s) + (if e.tag == Same then 1 else 0)
  {
    Unaffected(s, [e], |s|);
  }

  /** Every script accounts for all lines of both texts. */
  lemma {:induction false} BalanceTo(s: seq<Entry>, k: nat)
    requires k <= |s|
    ensures |OldTo(s, k)| + |NewTo(s, k)| == SameTo(s, k) + k
    ensures SameTo(s, k) <= |OldTo(s, k)| && SameTo(s, k) <= |NewTo(s, k)|
  {
    if k > 0 {
      BalanceTo(s, k - 1);
    }
  }

  lemma ScriptBalance(s: seq<Entry>)
    ensures |OldSide(s)| + |NewSide(s)| == 2 * SameCount(s) + Changes(s)
    ensures 0 <= Changes(s)
  {
    BalanceTo(s, |s|);
  }

  // ----- The longest common subsequence of two suffixes -----

  ghost function Lcs(a: seq<Line>, b: seq<Line>, i: nat, j: nat): (n: nat)
    requires i <= |a| && j <= |b|
    ensures n <= |a| - i && n <= |b| - j
    decreases |a| - i + |b| - j
  {
    if i == |a| || j == |b| then 0
    else if a[i] == b[j] then Lcs(a, b, i + 1, j + 1) + 1
    else if Lcs(a, b, i + 1, j) >= Lcs(a, b, i, j + 1) then Lcs(a, b, i + 1, j)
    else Lcs(a, b, i, j + 1)
  }

  /** Dropping one line costs at most one common line and never gains one. */
  lemma {:induction false} LcsStep(a: seq<Line>, b: seq<Line>, i: nat, j: nat)
    requires i <= |a| && j <= |b|
    ensures i < |a| ==> Lcs(a, b, i + 1, j) <= Lcs(a, b, i, j) <= Lcs(a, b, i + 1, j) + 1
    ensures j < |b| ==> Lcs(a, b, i, j + 1) <= Lcs(a, b, i, j) <= Lcs(a, b, i, j + 1) + 1
    decreases |a| - i + |b| - j
  {
    if i < |a| && j < |b| {
      LcsStep(a, b, i + 1, j);
      LcsStep(a, b, i, j + 1);
    }
  }

  /** A prefix of a script leaves at most `Lcs` of the unread suffixes to be kept. */
  lemma {:induction false} PrefixBound(s: seq<Entry>, k: nat, a: seq<Line>, b: seq<Line>)
    requires k <= |s| && OldTo(s, k) <= a && NewTo(s, k) <= b
    ensures SameTo(s, k) + Lcs(a, b, |OldTo(s, k)|, |NewTo(s, k)|) <= Lcs(a, b, 0, 0)
  {
    if k > 0 {
      PrefixBound(s, k - 1, a, b);
      StepBound(a, b, OldTo(s, k - 1), NewTo(s, k - 1), s[k - 1]);
    }
  }

  /** One entry of a script uses up at least as much of the bound as it keeps. */
  lemma StepBound(a: seq<Line>, b: seq<Line>, x: seq<Line>, y: seq<Line>, e: Entry)
    requires x + (if e.tag == Added then [] else [e.line]) <= a
    requires y + (if e.tag == Removed then [] else [e.line]) <= b
    ensures Lcs(a, b, |x|, |y|) >=
            (match e.tag
             case Same => Lcs(a, b, |x| + 1, |y| + 1) + 1
             case Removed => Lcs(a, b, |x| + 1, |y|)
             case Added => Lcs(a, b, |x|, |y| + 1))
  {
    LcsStep(a, b, |x|, |y|);
    if e.tag == Same {
      assert a[|x|] == (x + [e.line])[|x|] == (y + [e.line])[|y|] == b[|y|];
    }
  }

  /** No script keeps more lines than the longest common subsequence. */
  lemma {:induction false} LcsIsUpperBound(s: seq<Entry>, a: seq<Line>, b: seq<Line>)
    requires IsScript(s, a, b)
    ensures SameCount(s) <= Lcs(a, b, 0, 0)
    ensures Changes(s) >= |a| + |b| - 2 * Lcs(a, b, 0, 0)
  {
    PrefixBound(s, |s|, a, b);
    ScriptBalance(s);
  }

  /** A script is optimal exactly when it keeps a longest common subsequence. */
  lemma {:induction false} OptimalIffLcs(s: seq<Entry>, a: seq<Line>, b: seq<Line>)
    requires IsScript(s, a, b)
    ensures Optimal(s, a, b) <==> SameCount(s) == Lcs(a, b, 0, 0)
  {
    ScriptBalance(s);
    LcsIsUpperBound(s, a, b);
    var best := LcsScript(a, b, 0, 0);
    assert a[0..] == a && b[0..] == b;
    ScriptBalance(best);
    forall t: seq<Entry> | IsScript(t, a, b)
      ensures Changes(t) >= |a| + |b| - 2 * Lcs(a, b, 0, 0)
    {
      LcsIsUpperBound(t, a, b);
    }
  }

  /** One more line in front. */
  lemma Prepend(e: Entry, s: seq<Entry>)
    ensures OldSide([e] + s) == (if e.tag == Added then [] else [e.line]) + OldSide(s)
    ensures NewSide([e] + s) == (if e.tag == Removed then [] else [e.line]) + NewSide(s)
    ensures SameCount([e] + s) == (if e.tag == Same then 1 else 0) + SameCount(s)
  {
    ScriptAppend([e], s);
    Emit([], e);
    assert [] + [e] == [e];
  }

  lemma FirstLine(a: seq<Line>, i: nat)
    requires i < |a|
    ensures a[i..] == [a[i]] + a[i + 1..]
  {
  }

  /** The longest common subsequence is attained by a script. */
  lemma {:induction false} LcsScript(a: seq<Line>, b: seq<Line>, i: nat, j: nat) returns (s: seq<Entry>)
    requires i <= |a| && j <= |b|
    ensures IsScript(s, a[i..], b[j..]) && SameCount(s) == Lcs(a, b, i, j)
    decreases |a| - i + |b| - j
  {
    if i == |a| && j == |b| {
      s := [];
    } else if i < |a| && j < |b| && a[i] == b[j] {
      s := LcsScript(a, b, i + 1, j + 1);
      FirstLine(a, i);
      FirstLine(b, j);
      Prepend(Entry(Same, a[i]), s);
      s := [Entry(Same, a[i])] + s;
    } else if i < |a| && (j == |b| || Lcs(a, b, i + 1, j) >= Lcs(a, b, i, j + 1)) {
      s := LcsScript(a, b, i + 1, j);
      FirstLine(a, i);
      Prepend(Entry(Removed, a[i]), s);
      s := [Entry(Removed, a[i])] + s;
    } else {
      s := LcsScript(a, b, i, j + 1);
      FirstLine(b, j);
      Prepend(Entry(Added, b[j]), s);
      s := [Entry(Added, b[j])] + s;
    }
  }

  /** Of the scripts between two suffixes that keep most lines the first one: an unchanged line
      before a removed one before an added one. */
  ghost function First(a: seq<Line>, b: seq<Line>, i: nat, j: nat): seq<Entry>
    requires i <= |a| && j <= |b|
    decreases |a| - i + |b| - j
  {
    if i == |a| && j == |b| then []
    else if i < |a| && j < |b| && a[i] == b[j] then [Entry(Same, a[i])] + First(a, b, i + 1, j + 1)
    else if i < |a| && (j == |b| || Lcs(a, b, i + 1, j) >= Lcs(a, b, i, j + 1)) then
      [Entry(Removed, a[i])] + First(a, b, i + 1, j)
    else [Entry(Added, b[j])] + First(a, b, i, j + 1)
  }

  lemma {:induction false} FirstRemoves(a: seq<Line>, b: seq<Line>, i: nat)
    requires i <= |a|
    ensures First(a, b, i, |b|) == Mark(Removed, a[i..])
    decreases |a| - i
  {
    if i < |a| {
      FirstRemoves(a, b, i + 1);
    }
  }

  lemma {:induction false} FirstAdds(a: seq<Line>, b: seq<Line>, j: nat)
    requires j <= |b|
    ensures First(a, b, |a|, j) == Mark(Added, b[j..])
    decreases |b| - j
  {
    if j < |b| {
      FirstAdds(a, b, j + 1);
    }
  }

  lemma MoveOver(s: seq<Entry>, e: Entry, rest: seq<Entry>)
    ensures s + ([e] + rest) == s + [e] + rest
  {
  }

  // ----- The operations -----

  ghost function Clip(lines: seq<Line>): seq<Line> {
    if |lines| > MAX_LINES then lines[..MAX_LINES] else lines
  }

  ghost predicate TooLarge(a: seq<Line>, b: seq<Line>) {
    |a| * |b| > MAX_PRODUCT
  }

  /** Fills one row of the table from the row below it. */
  method FillRow(dp: array2<Cell>, a: seq<Line>, b: seq<Line>, i: nat)
    requires |a| <= MAX_LINES && |b| <= MAX_LINES
    requires dp.Length0 == |a| + 1 && dp.Length1 == |b| + 1 && i < |a|
    requires forall x, y :: i < x <= |a| && 0 <= y <= |b| ==> dp[x, y] as int == Lcs(a, b, x, y)
    requires dp[i, |b|] == 0
    modifies dp
    ensures forall y :: 0 <= y <= |b| ==> dp[i, y] as int == Lcs(a, b, i, y)
    ensures forall x, y :: 0 <= x <= |a| && 0 <= y <= |b| && x != i ==> dp[x, y] == old(dp[x, y])
  {
    var j := |b| - 1;
    while j >= 0
      invariant -1 <= j < |b|
      invariant forall y :: j < y <= |b| ==> dp[i, y] as int == Lcs(a, b, i, y)
      invariant forall x, y :: 0 <= x <= |a| && 0 <= y <= |b| && x != i ==> dp[x, y] == old(dp[x, y])
    {
      assert dp[i + 1, j] as int == Lcs(a, b, i + 1, j);
      assert dp[i + 1, j + 1] as int == Lcs(a, b, i + 1, j + 1);
      if a[i] == b[j] {
        dp[i, j] := dp[i + 1, j + 1] + 1;
      } else if dp[i + 1, j] >= dp[i, j + 1] {
        dp[i, j] := dp[i + 1, j];
      } else {
        dp[i, j] := dp[i, j + 1];
      }
      j := j - 1;
    }
  }

  /** Fills the table backwards; every cell is the LCS length of the two suffixes. */
  method FillTable(a: seq<Line>, b: seq<Line>) returns (dp: array2<Cell>)
    requires |a| <= MAX_LINES && |b| <= MAX_LINES
    ensures fresh(dp) && dp.Length0 == |a| + 1 && dp.Length1 == |b| + 1
    ensures forall x, y :: 0 <= x <= |a| && 0 <= y <= |b| ==> dp[x, y] as int == Lcs(a, b, x, y)
  {
    dp := new Cell[|a| + 1, |b| + 1]((i, j) => 0);
    var i := |a| - 1;
    while i >= 0
      invariant -1 <= i < |a|
      invariant forall x, y :: i < x <= |a| && 0 <= y <= |b| ==> dp[x, y] as int == Lcs(a, b, x, y)
      invariant forall x :: 0 <= x <= i ==> dp[x, |b|] == 0
    {
      FillRow(dp, a, b, i);
      i := i - 1;
    }
  }

  /** A block of lines, all with one tag. */
  ghost function Mark(tag: Tag, lines: seq<Line>): seq<Entry> {
    seq(|lines|, k requires 0 <= k < |lines| => Entry(tag, lines[k]))
  }

  lemma {:induction false} MarkTo(tag: Tag, lines: seq<Line>, k: nat)
    requires k <= |lines|
    ensures OldTo(Mark(tag, lines), k) == (if tag == Added then [] else lines[..k])
    ensures NewTo(Mark(tag, lines), k) == (if tag == Removed then [] else lines[..k])
    ensures SameTo(Mark(tag, lines), k) == (if tag == Same then k else 0)
  {
    if k > 0 {
      MarkTo(tag, lines, k - 1);
      assert Mark(tag, lines)[k - 1] == Entry(tag, lines[k - 1]);
      assert lines[..k] == lines[..k - 1] + [lines[k - 1]];
    }
  }

  lemma MarkSides(tag: Tag, lines: seq<Line>)
    ensures OldSide(Mark(tag, lines)) == (if tag == Added then [] else lines)
    ensures NewSide(Mark(tag, lines)) == (if tag == Removed then [] else lines)
    ensures SameCount(Mark(tag, lines)) == (if tag == Same then |lines| else 0)
  {
    MarkTo(tag, lines, |lines|);
    assert lines[..|lines|] == lines;
  }

  /** Appends the given lines, all with one tag. */
  method EmitAll(s: seq<Entry>, tag: Tag, lines: seq<Line>) returns (out: seq<Entry>)
    ensures out == s + Mark(tag, lines)
  {
    out := s;
    for n := 0 to |lines|
      invariant out == s + Mark(tag, lines[..n])
    {
      out := out + [Entry(tag, lines[n])];
      assert Mark(tag, lines[..n + 1]) == Mark(tag, lines[..n]) + [Entry(tag, lines[n])];
    }
    assert lines[..|lines|] == lines;
  }

  lemma AppendMark(s: seq<Entry>, tag: Tag, lines: seq<Line>)
    ensures OldSide(s + Mark(tag, lines)) == OldSide(s) + (if tag == Added then [] else lines)
    ensures NewSide(s + Mark(tag, lines)) == NewSide(s) + (if tag == Removed then [] else lines)
    ensures SameCount(s + Mark(tag, lines)) == SameCount(s) + (if tag == Same then |lines| else 0)
  {
    ScriptAppend(s, Mark(tag, lines));
    MarkSides(tag, lines);
  }

  /** The two loops behind the walk: one text is at its end. */
  method EmitTails(s: seq<Entry>, a: seq<Line>, b: seq<Line>, i: nat, j: nat) returns (out: seq<Entry>)
    requires i <= |a| && j <= |b| && (i == |a| || j == |b|)
    requires OldSide(s) == a[..i] && NewSide(s) == b[..j]
    ensures IsScript(out, a, b) && SameCount(out) == SameCount(s) && out == s + First(a, b, i, j)
  {
    AppendMark(s, Removed, a[i..]);
    out := EmitAll(s, Removed, a[i..]);
    AppendMark(out, Added, b[j..]);
    out := EmitAll(out, Added, b[j..]);
    assert a[..i] + a[i..] == a && b[..j] + b[j..] == b;
    if i == |a| {
      FirstAdds(a, b, j);
    } else {
      FirstRemoves(a, b, i);
    }
  }

  /** What is true of the walk when it has come to `i` and `j`. */
  ghost predicate Walked(s: seq<Entry>, a: seq<Line>, b: seq<Line>, i: nat, j: nat) {
    && i <= |a| && j <= |b|
    && OldSide(s) == a[..i] && NewSide(s) == b[..j]
    && SameCount(s) + Lcs(a, b, i, j) == Lcs(a, b, 0, 0)
    && s + First(a, b, i, j) == First(a, b, 0, 0)
  }

  lemma WalkStep(s: seq<Entry>, a: seq<Line>, b: seq<Line>, i: nat, j: nat, e: Entry)
    requires Walked(s, a, b, i, j) && i < |a| && j < |b|
    requires e == if a[i] == b[j] then Entry(Same, a[i])
                  else if Lcs(a, b, i + 1, j) >= Lcs(a, b, i, j + 1) then Entry(Removed, a[i])
                  else Entry(Added, b[j])
    ensures Walked(s + [e], a, b, if e.tag == Added then i else i + 1, if e.tag == Removed then j else j + 1)
  {
    assert a[..i + 1] == a[..i] + [a[i]] && b[..j + 1] == b[..j] + [b[j]];
    Emit(s, e);
    MoveOver(s, e, First(a, b, if e.tag == Added then i else i + 1, if e.tag == Removed then j else j + 1));
  }

  /** The walk through a filled table, keeping as many lines as the table promises. */
  method Backtrace(dp: array2<Cell>, a: seq<Line>, b: seq<Line>) returns (s: seq<Entry>)
    requires dp.Length0 == |a| + 1 && dp.Length1 == |b| + 1
    requires forall x, y :: 0 <= x <= |a| && 0 <= y <= |b| ==> dp[x, y] as int == Lcs(a, b, x, y)
    ensures IsScript(s, a, b) && SameCount(s) == Lcs(a, b, 0, 0) && s == First(a, b, 0, 0)
  {
    s := [];
    var i, j := 0, 0;
    while i < |a| && j < |b|
      invariant Walked(s, a, b, i, j)
      decreases |a| - i + |b| - j
    {
      var e: Entry;
      ghost var i0, j0 := i, j;
      if a[i] == b[j] {
        e := Entry(Same, a[i]);
        i, j := i + 1, j + 1;
      } else if dp[i + 1, j] >= dp[i, j + 1] {
        e := Entry(Removed, a[i]);
        i := i + 1;
      } else {
        e := Entry(Added, b[j]);
        j := j + 1;
      }
      WalkStep(s, a, b, i0, j0, e);
      s := s + [e];
    }
    s := EmitTails(s, a, b, i, j);
  }

  /** The table diff: a script between the two texts that no script beats. */
  method TableDiff(a: seq<Line>, b: seq<Line>) returns (s: seq<Entry>)
    requires |a| <= MAX_LINES && |b| <= MAX_LINES
    ensures IsScript(s, a, b) && SameCount(s) == Lcs(a, b, 0, 0) && Optimal(s, a, b) && s == First(a, b, 0, 0)
  {
    var dp := FillTable(a, b);
    s := Backtrace(dp, a, b);
    OptimalIffLcs(s, a, b);
  }

  // ----- The fallback -----

  /** `p` and `q` are the lengths of a common prefix and a common suffix that do not overlap. */
  ghost predicate Affix(a: seq<Line>, b: seq<Line>, p: nat, q: nat) {
    p + q <= |a| && p + q <= |b| && a[..p] == b[..p] && a[|a| - q..] == b[|b| - q..]
  }

  lemma AffixLines(a: seq<Line>, b: seq<Line>, p: nat, q: nat, k: nat)
    requires Affix(a, b, p, q)
    ensures k < p ==> a[k] == b[k]
    ensures k < q ==> a[|a| - 1 - k] == b[|b| - 1 - k]
  {
    if k < p {
      assert a[k] == a[..p][k] == b[..p][k];
    }
    if k < q {
      assert a[|a| - 1 - k] == a[|a| - q..][q - 1 - k] == b[|b| - q..][q - 1 - k];
    }
  }

  lemma {:induction false} SameSides(s: seq<Entry>, k: nat)
    requires k <= |s| && AllSame(s)
    ensures OldTo(s, k) == NewTo(s, k) && |OldTo(s, k)| == k == SameTo(s, k)
  {
    if k > 0 {
      SameSides(s, k - 1);
    }
  }

  lemma {:induction false} ChangedSides(s: seq<Entry>, n: nat)
    requires n <= |s| && forall k :: 0 <= k < |s| ==> s[k].tag != Same
    ensures SameTo(s, n) == 0
  {
    if n > 0 {
      ChangedSides(s, n - 1);
    }
  }

  /** The unchanged lines around a single block of changes are a common prefix and suffix. */
  lemma BlockIsAffix(s: seq<Entry>, p: nat, q: nat, a: seq<Line>, b: seq<Line>)
    requires IsScript(s, a, b) && SingleBlock(s, p, q)
    ensures Affix(a, b, p, q) && SameCount(s) == p + q
    ensures Changes(s) == |a| + |b| - 2 * (p + q)
  {
    var pre, mid, post := s[..p], s[p..|s| - q], s[|s| - q..];
    assert s == pre + mid + post;
    ThreeParts(pre, mid, post);
    SameSides(pre, |pre|);
    SameSides(post, |post|);
    ChangedSides(mid, |mid|);
    ScriptBalance(s);
    SplitEnds(a, OldSide(pre), OldSide(mid), OldSide(post));
    SplitEnds(b, NewSide(pre), NewSide(mid), NewSide(post));
  }

  lemma SplitEnds(a: seq<Line>, x: seq<Line>, y: seq<Line>, z: seq<Line>)
    requires a == x + y + z
    ensures |x| + |z| <= |a| && a[..|x|] == x && a[|a| - |z|..] == z
  {
  }

  /** Neither end of the block of changes can be shrunk. */
  ghost predicate Maximal(a: seq<Line>, b: seq<Line>, p: nat, q: nat) {
    && Affix(a, b, p, q)
    && (p == |a| || p == |b| || a[p] != b[p])
    && (p + q == |a| || p + q == |b| || a[|a| - 1 - q] != b[|b| - 1 - q])
  }

  /** Taking the prefix greedily loses nothing: no non-overlapping pair covers more lines. */
  lemma MaximalCoversMost(a: seq<Line>, b: seq<Line>, p: nat, q: nat, p': nat, q': nat)
    requires Maximal(a, b, p, q) && Affix(a, b, p', q')
    ensures p' <= p && p' + q' <= p + q
  {
    AffixLines(a, b, p', q', p);
    AffixLines(a, b, p', q', q);
  }

  /** A maximal prefix and suffix give the best script with one block of changes. */
  lemma MaximalIsBlockOptimal(s: seq<Entry>, a: seq<Line>, b: seq<Line>, p: nat, q: nat)
    requires IsScript(s, a, b) && SingleBlock(s, p, q) && Maximal(a, b, p, q)
    ensures BlockOptimal(s, a, b)
  {
    BlockIsAffix(s, p, q, a, b);
    forall t: seq<Entry>, p': nat, q': nat | IsScript(t, a, b) && SingleBlock(t, p', q')
      ensures Changes(s) <= Changes(t)
    {
      BlockIsAffix(t, p', q', a, b);
      MaximalCoversMost(a, b, p, q, p', q');
    }
  }

  /** The longest common prefix, and the longest common suffix of what follows it. */
  method CommonEnds(a: seq<Line>, b: seq<Line>) returns (prefix: nat, suffix: nat)
    ensures Maximal(a, b, prefix, suffix)
  {
    prefix := 0;
    while prefix < |a| && prefix < |b| && a[prefix] == b[prefix]
      invariant prefix <= |a| && prefix <= |b| && a[..prefix] == b[..prefix]
    {
      assert a[..prefix + 1] == a[..prefix] + [a[prefix]] && b[..prefix + 1] == b[..prefix] + [b[prefix]];
      prefix := prefix + 1;
    }
    suffix := 0;
    while suffix < |a| - prefix && suffix < |b| - prefix && a[|a| - 1 - suffix] == b[|b| - 1 - suffix]
      invariant Affix(a, b, prefix, suffix)
    {
      FirstLine(a, |a| - 1 - suffix);
      FirstLine(b, |b| - 1 - suffix);
      suffix := suffix + 1;
    }
  }

  /** The fallback's output: all removed lines before all added ones, between the common ends. */
  ghost function Block(a: seq<Line>, b: seq<Line>, p: nat, q: nat): seq<Entry>
    requires Affix(a, b, p, q)
  {
    Mark(Same, a[..p]) + Mark(Removed, a[p..|a| - q]) + Mark(Added, b[p..|b| - q]) + Mark(Same, a[|a| - q..])
  }

  lemma BlockIsSingle(a: seq<Line>, b: seq<Line>, p: nat, q: nat)
    requires Affix(a, b, p, q)
    ensures SingleBlock(Block(a, b, p, q), p, q)
  {
  }

  lemma FourParts(w: seq<Entry>, x: seq<Entry>, y: seq<Entry>, z: seq<Entry>)
    ensures OldSide(w + x + y + z) == OldSide(w) + OldSide(x) + OldSide(y) + OldSide(z)
    ensures NewSide(w + x + y + z) == NewSide(w) + NewSide(x) + NewSide(y) + NewSide(z)
  {
    ScriptAppend(w + x + y, z);
    ThreeParts(w, x, y);
  }

  lemma Sandwich(a: seq<Line>, p: nat, q: nat)
    requires p + q <= |a|
    ensures a[..p] + a[p..|a| - q] + [] + a[|a| - q..] == a
    ensures a[..p] + [] + a[p..|a| - q] + a[|a| - q..] == a
  {
  }

  lemma BlockIsScript(a: seq<Line>, b: seq<Line>, p: nat, q: nat)
    requires Affix(a, b, p, q)
    ensures IsScript(Block(a, b, p, q), a, b)
  {
    var w, x := Mark(Same, a[..p]), Mark(Removed, a[p..|a| - q]);
    var y, z := Mark(Added, b[p..|b| - q]), Mark(Same, a[|a| - q..]);
    FourParts(w, x, y, z);
    MarkSides(Same, a[..p]);
    MarkSides(Removed, a[p..|a| - q]);
    MarkSides(Added, b[p..|b| - q]);
    MarkSides(Same, a[|a| - q..]);
    Sandwich(a, p, q);
    Sandwich(b, p, q);
  }

  method EmitBlock(a: seq<Line>, b: seq<Line>, p: nat, q: nat) returns (s: seq<Entry>)
    requires Affix(a, b, p, q)
    ensures s == Block(a, b, p, q)
  {
    s := EmitAll([], Same, a[..p]);
    assert s == Mark(Same, a[..p]);
    s := EmitAll(s, Removed, a[p..|a| - q]);
    s := EmitAll(s, Added, b[p..|b| - q]);
    s := EmitAll(s, Same, a[|a| - q..]);
  }

  /** The fallback for large inputs. */
  method SimpleChangedBlock(a: seq<Line>, b: seq<Line>) returns (s: seq<Entry>)
    ensures IsScript(s, a, b) && BlockOptimal(s, a, b)
    ensures exists p: nat, q: nat :: Maximal(a, b, p, q) && s == Block(a, b, p, q)
  {
    var prefix, suffix := CommonEnds(a, b);
    s := EmitBlock(a, b, prefix, suffix);
    BlockIsScript(a, b, prefix, suffix);
    BlockIsSingle(a, b, prefix, suffix);
    MaximalIsBlockOptimal(s, a, b, prefix, suffix);
  }

  /** `unifiedLineDiff` on two sequences of lines. */
  method UnifiedLineDiff(oldLines: seq<Line>, newLines: seq<Line>) returns (s: seq<Entry>, truncated: bool)
    ensures IsScript(s, Clip(oldLines), Clip(newLines))
    ensures !TooLarge(Clip(oldLines), Clip(newLines)) ==>
              Optimal(s, Clip(oldLines), Clip(newLines)) && s == First(Clip(oldLines), Clip(newLines), 0, 0)
    ensures TooLarge(Clip(oldLines), Clip(newLines)) ==> BlockOptimal(s, Clip(oldLines), Clip(newLines))
    ensures !truncated ==> IsScript(s, oldLines, newLines) && Optimal(s, oldLines, newLines)
    ensures truncated <==> |oldLines| > MAX_LINES || |newLines| > MAX_LINES
                           || TooLarge(Clip(oldLines), Clip(newLines))
  {
    var a, b := oldLines, newLines;
    truncated := false;
    if |a| > MAX_LINES {
      a, truncated := a[..MAX_LINES], true;
    }
    if |b| > MAX_LINES {
      b, truncated := b[..MAX_LINES], true;
    }
    if |a| * |b| > MAX_PRODUCT {
      s := SimpleChangedBlock(a, b);
      truncated := true;
    } else {
      s := TableDiff(a, b);
    }
  }
}
