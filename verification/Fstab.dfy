/**
 Adding and removing the swap file entry of `/etc/fstab`, `internal/hostadmin/settings.go`.
 The model works on the text of the file.
 */
module Fstab {
  import opened Splitting
  import opened Text

  const NEWLINE := '\n'
  const MARKER := "# Managed by LukePanel"
  const SWAP_FILE := "/swapfile"
  const SWAP_LINE := "/swapfile none swap sw 0 0"

  // ----- The string functions used -----

  function TrimNewlines(s: string): string {
    if s != "" && s[|s| - 1] == NEWLINE then TrimNewlines(s[..|s| - 1]) else s
  }

  predicate Contains(s: string, sub: string) {
    exists i :: 0 <= i <= |s| && sub <= s[i..]
  }

  function JoinLines(lines: seq<string>): string {
    if lines == [] then "" else Join(lines, NEWLINE)
  }

  // ----- The two operations -----

  /** `appendFstabLine`. */
  function AppendLine(data: string, line: string): string {
    if Contains(data, SWAP_FILE) then data
    else TrimNewlines(data) + "\n" + MARKER + "\n" + line + "\n"
  }

  /** The lines that `removeFstabLine` keeps; `skip` is set right behind a marker. */
  function Keep(lines: seq<string>, path: string, skip: bool): seq<string> {
    if lines == [] then [] else
      var trim := TrimSpace(lines[0]);
      if trim == MARKER then Keep(lines[1..], path, true)
      else if path + " " <= trim then Keep(lines[1..], path, skip)
      else if skip && trim == "" then Keep(lines[1..], path, false)
      else [lines[0]] + Keep(lines[1..], path, false)
  }

  function RemovedLine(data: string, path: string): string {
    TrimNewlines(JoinLines(Keep(Split(data, NEWLINE), path, false))) + "\n"
  }

  /** `removeFstabLine`, with its loop. */
  method RemoveLine(data: string, path: string) returns (text: string)
    ensures text == RemovedLine(data, path)
  {
    var all := Split(data, NEWLINE);
    var lines: seq<string> := [];
    var skipComment := false;
    var i := 0;
    while i < |all|
      invariant 0 <= i <= |all|
      invariant Keep(all, path, false) == lines + Keep(all[i..], path, skipComment)
    {
      var line, rest := all[i], all[i + 1..];
      assert all[i..] == [line] + rest;
      var trim := TrimSpace(line);
      i := i + 1;
      if trim == MARKER {
        skipComment := true;
        continue;
      }
      if path + " " <= trim {
        continue;
      }
      if skipComment && trim == "" {
        skipComment := false;
        continue;
      }
      skipComment := false;
      assert lines + ([line] + Keep(rest, path, false)) == lines + [line] + Keep(rest, path, false);
      lines := lines + [line];
    }
    assert all[|all|..] == [] && lines + [] == lines;
    text := TrimNewlines(JoinLines(lines)) + "\n";
  }

  // ----- Lines and text -----

  ghost predicate HasMarker(data: string) {
    exists line :: line in Split(data, NEWLINE) && TrimSpace(line) == MARKER
  }

  lemma {:induction false} JoinSplit(s: string)
    ensures Join(Split(s, NEWLINE), NEWLINE) == s
  {
    if s != "" {
      JoinSplit(s[1..]);
      JoinPush(s[0], Split(s[1..], NEWLINE));
      assert [s[0]] + s[1..] == s;
    }
  }

  lemma JoinFront(line: string, parts: seq<string>)
    requires |parts| > 0
    ensures Join([line] + parts, NEWLINE) == line + [NEWLINE] + Join(parts, NEWLINE)
  {
    assert ([line] + parts)[1..] == parts;
  }

  lemma JoinPush(c: char, parts: seq<string>)
    requires |parts| > 0
    ensures Join(Push(c, parts, NEWLINE), NEWLINE) == [c] + Join(parts, NEWLINE)
  {
    var first, others := parts[0], parts[1..];
    assert parts == [first] + others;
    if c == NEWLINE {
      JoinFront([], parts);
      assert [] + [NEWLINE] == [c];
    } else if others == [] {
      assert Push(c, parts, NEWLINE) == [[c] + first];
    } else {
      JoinFront([c] + first, others);
      JoinFront(first, others);
      Regroup([c], first, [NEWLINE], Join(others, NEWLINE));
    }
  }

  lemma Regroup(a: string, b: string, c: string, d: string)
    ensures a + b + c + d == a + (b + c + d)
  {
  }

  lemma {:induction false} SplitJoin(parts: seq<string>)
    requires |parts| > 0 && forall k :: 0 <= k < |parts| ==> NEWLINE !in parts[k]
    ensures Split(Join(parts, NEWLINE), NEWLINE) == parts
    decreases |parts|
  {
    SplitOne(parts[0], NEWLINE);
    if |parts| > 1 {
      SplitJoin(parts[1..]);
      LineThenRest(parts[0], Join(parts[1..], NEWLINE));
      assert parts == [parts[0]] + parts[1..];
    }
  }

  /** A line, a newline, and more text. */
  lemma LineThenRest(line: string, rest: string)
    requires NEWLINE !in line
    ensures Split(line + [NEWLINE] + rest, NEWLINE) == [line] + Split(rest, NEWLINE)
  {
    var tail := [NEWLINE] + rest;
    assert tail[1..] == rest;
    assert Split(tail, NEWLINE) == [[]] + Split(rest, NEWLINE);
    SplitAppend(line, tail, NEWLINE);
    SplitOne(line, NEWLINE);
    assert line + [NEWLINE] + rest == line + tail && line + [] == line;
  }

  /** Trailing newlines only add empty lines. */
  lemma {:induction false} TrimKeepsMarker(data: string)
    ensures HasMarker(TrimNewlines(data)) <==> HasMarker(data)
  {
    if data != "" && data[|data| - 1] == NEWLINE {
      var d := data[..|data| - 1];
      TrimKeepsMarker(d);
      EmptyLastLine(d);
      assert data == d + [NEWLINE];
      var more, less := Split(data, NEWLINE), Split(d, NEWLINE);
      assert forall line :: line in more <==> line in less || line == "";
    }
  }

  lemma EmptyLastLine(d: string)
    ensures Split(d + [NEWLINE], NEWLINE) == Split(d, NEWLINE) + [""]
  {
    var end := [NEWLINE];
    assert end[1..] == "";
    assert Split(end, NEWLINE) == [[]] + [[]];
    SplitAppend(d, end, NEWLINE);
    assert d + [] == d;
  }

  // ----- Lines that are kept -----

  ghost predicate Dropped(line: string, path: string) {
    TrimSpace(line) == MARKER || path + " " <= TrimSpace(line)
  }

  lemma KeepLine(line: string, rest: seq<string>, path: string)
    requires !Dropped(line, path)
    ensures Keep([line] + rest, path, false) == [line] + Keep(rest, path, false)
  {
    assert ([line] + rest)[1..] == rest;
  }

  /** Without markers and entries for the path every line is kept, and what follows is
      treated as at the beginning. */
  lemma FirstAndRest<T>(s: seq<T>, t: seq<T>)
    requires s != []
    ensures s + t == [s[0]] + (s[1..] + t)
  {
  }

  lemma {:induction false} KeepAll(lines: seq<string>, tail: seq<string>, path: string)
    requires forall k :: 0 <= k < |lines| ==> !Dropped(lines[k], path)
    ensures Keep(lines + tail, path, false) == lines + Keep(tail, path, false)
  {
    if lines == [] {
      assert lines + tail == tail;
    } else {
      KeepAll(lines[1..], tail, path);
      KeepLine(lines[0], lines[1..] + tail, path);
      FirstAndRest(lines, tail);
      FirstAndRest(lines, Keep(tail, path, false));
    }
  }

  /** Between the line and the last marker before it there are at most entries for the path. */
  ghost predicate BehindMarker(lines: seq<string>, path: string, k: nat)
    requires k <= |lines|
  {
    exists j :: 0 <= j < k && TrimSpace(lines[j]) == MARKER
                && forall m :: j < m < k ==> path + " " <= TrimSpace(lines[m])
  }

  /** A line stays if it is no marker, no entry for the path, and no empty line behind a marker. */
  ghost predicate Stays(lines: seq<string>, path: string, k: nat)
    requires k < |lines|
  {
    !Dropped(lines[k], path) && !(TrimSpace(lines[k]) == "" && BehindMarker(lines, path, k))
  }

  lemma BehindNext(lines: seq<string>, path: string, k: nat)
    requires k < |lines|
    ensures BehindMarker(lines, path, k + 1) <==>
              TrimSpace(lines[k]) == MARKER || (path + " " <= TrimSpace(lines[k]) && BehindMarker(lines, path, k))
  {
    if BehindMarker(lines, path, k) && path + " " <= TrimSpace(lines[k]) {
      var j :| 0 <= j < k && TrimSpace(lines[j]) == MARKER
               && forall m :: j < m < k ==> path + " " <= TrimSpace(lines[m]);
      assert forall m :: j < m < k + 1 ==> path + " " <= TrimSpace(lines[m]);
    }
  }

  /** The lines from number `i` on that stay, in their order. */
  ghost function Staying(lines: seq<string>, path: string, i: nat): seq<string>
    requires i <= |lines|
    decreases |lines| - i
  {
    if i == |lines| then []
    else if Stays(lines, path, i) then [lines[i]] + Staying(lines, path, i + 1)
    else Staying(lines, path, i + 1)
  }

  lemma {:induction false} KeptFrom(lines: seq<string>, path: string, i: nat)
    requires i <= |lines|
    ensures Keep(lines[i..], path, BehindMarker(lines, path, i)) == Staying(lines, path, i)
    decreases |lines| - i
  {
    if i < |lines| {
      KeptFrom(lines, path, i + 1);
      BehindNext(lines, path, i);
      assert lines[i..][1..] == lines[i + 1..];
    }
  }

  /** The lines kept are exactly those that stay. */
  lemma KeptExactly(lines: seq<string>, path: string)
    ensures Keep(lines, path, false) == Staying(lines, path, 0)
  {
    KeptFrom(lines, path, 0);
    assert lines[0..] == lines;
  }

  /** Every kept line was there before, and none is a marker. */
  lemma {:induction false} KeptLines(lines: seq<string>, path: string, skip: bool)
    ensures forall line :: line in Keep(lines, path, skip) ==> line in lines && TrimSpace(line) != MARKER
  {
    if lines != [] {
      KeptLines(lines[1..], path, true);
      KeptLines(lines[1..], path, false);
    }
  }

  lemma {:induction false} TrimLeftIsSuffix(s: string)
    ensures |TrimLeft(s)| <= |s| && TrimLeft(s) == s[|s| - |TrimLeft(s)|..]
  {
    if s != "" && IsSpace(s[0]) {
      TrimLeftIsSuffix(s[1..]);
    }
  }

  lemma {:induction false} TrimRightIsPrefix(s: string)
    ensures TrimRight(s) <= s
  {
    if s != "" && IsSpace(s[|s| - 1]) {
      TrimRightIsPrefix(s[..|s| - 1]);
    }
  }

  lemma ContainsPart(s: string, i: nat, part: string, sub: string)
    requires i <= |s| && part <= s[i..] && Contains(part, sub)
    ensures Contains(s, sub)
  {
    var j :| 0 <= j <= |part| && sub <= part[j..];
    assert s[i + j..] == s[i..][j..];
    assert part[j..] <= s[i..][j..];
    assert sub <= s[i + j..];
  }

  /** A line that names the path, possibly behind white space, contains it. */
  lemma EntryContains(line: string, path: string)
    requires path + " " <= TrimSpace(line)
    ensures Contains(line, path)
  {
    var left := TrimLeft(line);
    TrimLeftIsSuffix(line);
    TrimRightIsPrefix(left);
    assert path <= path + " " <= TrimRight(left) <= left;
    assert path <= left[0..];
    ContainsPart(line, |line| - |left|, left, path);
  }

  /** Every line is a part of the text. */
  lemma {:induction false} LineInText(s: string, line: string) returns (i: nat)
    requires line in Split(s, NEWLINE)
    ensures i <= |s| && line <= s[i..]
    ensures line == Split(s, NEWLINE)[0] ==> line <= s
  {
    i := 0;
    if s != "" {
      var rest := Split(s[1..], NEWLINE);
      FirstLineIsPrefix(s);
      if line != Split(s, NEWLINE)[0] {
        assert line in rest;
        i := LineInText(s[1..], line);
        i := i + 1;
        assert s[i..] == s[1..][i - 1..];
      }
    }
  }

  lemma {:induction false} FirstLineIsPrefix(s: string)
    ensures Split(s, NEWLINE)[0] <= s
  {
    if s != "" {
      FirstLineIsPrefix(s[1..]);
      assert s == [s[0]] + s[1..];
    }
  }

  lemma {:induction false} TrimmedIsPrefix(s: string)
    ensures TrimNewlines(s) <= s && forall k :: |TrimNewlines(s)| <= k < |s| ==> s[k] == NEWLINE
    ensures TrimNewlines(s) != "" ==> TrimNewlines(s)[|TrimNewlines(s)| - 1] != NEWLINE
    ensures TrimNewlines(TrimNewlines(s)) == TrimNewlines(s)
  {
    if s != "" && s[|s| - 1] == NEWLINE {
      TrimmedIsPrefix(s[..|s| - 1]);
    }
  }

  // ----- The round trip -----

  /** The entry is added as three lines, of which none is kept. */
  lemma EntryIsDropped()
    ensures Keep([MARKER, SWAP_LINE, ""], SWAP_FILE, false) == []
  {
    assert TrimSpace(MARKER) == MARKER;
    assert TrimSpace(SWAP_LINE) == SWAP_LINE;
    assert SWAP_FILE + " " <= SWAP_LINE;
    assert TrimSpace("") == "";
    var a, b, c: seq<string> := [MARKER, SWAP_LINE, ""], [SWAP_LINE, ""], [""];
    assert a[1..] == b && b[1..] == c && c[1..] == [];
    assert Keep(c, SWAP_FILE, true) == Keep([], SWAP_FILE, false) == [];
    assert Keep(b, SWAP_FILE, true) == Keep(c, SWAP_FILE, true);
  }

  /** A text that mentions the swap file is left alone, so adding the entry twice adds it once. */
  lemma AddedOnce(data: string)
    ensures Contains(data, SWAP_FILE) ==> AppendLine(data, SWAP_LINE) == data
    ensures Contains(AppendLine(data, SWAP_LINE), SWAP_FILE)
    ensures AppendLine(AppendLine(data, SWAP_LINE), SWAP_LINE) == AppendLine(data, SWAP_LINE)
  {
    if !Contains(data, SWAP_FILE) {
      var front := TrimNewlines(data) + "\n" + MARKER + "\n";
      var text := AppendLine(data, SWAP_LINE);
      assert text == front + (SWAP_LINE + "\n");
      assert text[|front|..] == SWAP_LINE + "\n";
      assert SWAP_FILE <= SWAP_LINE <= SWAP_LINE + "\n";
    }
  }

  lemma EntryLines()
    ensures Split(MARKER + "\n" + SWAP_LINE + "\n", NEWLINE) == [MARKER, SWAP_LINE, ""]
  {
    LineThenRest(SWAP_LINE, "");
    LineThenRest(MARKER, SWAP_LINE + "\n");
    assert SWAP_LINE + [NEWLINE] + "" == SWAP_LINE + "\n";
    assert MARKER + [NEWLINE] + (SWAP_LINE + "\n") == MARKER + "\n" + SWAP_LINE + "\n";
  }

  /** A text, a newline, and more. */
  lemma SplitBehind(t: string, entry: string)
    ensures Split(t + ([NEWLINE] + entry), NEWLINE) == Split(t, NEWLINE) + Split(entry, NEWLINE)
  {
    var tail := [NEWLINE] + entry;
    assert tail[1..] == entry;
    assert Split(tail, NEWLINE) == [[]] + Split(entry, NEWLINE);
    SplitAppend(t, tail, NEWLINE);
    assert t + [] == t;
  }

  /** The lines of the text with the entry added. */
  lemma AppendedLines(data: string)
    requires !Contains(data, SWAP_FILE)
    ensures Split(AppendLine(data, SWAP_LINE), NEWLINE)
            == Split(TrimNewlines(data), NEWLINE) + [MARKER, SWAP_LINE, ""]
  {
    var t, entry := TrimNewlines(data), MARKER + "\n" + SWAP_LINE + "\n";
    assert AppendLine(data, SWAP_LINE) == t + ([NEWLINE] + entry);
    EntryLines();
    SplitBehind(t, entry);
  }

  /** A line that was kept from a text without the path does not name it. */
  lemma LinesNameNoPath(data: string, path: string)
    requires !Contains(data, path)
    ensures forall line :: line in Split(TrimNewlines(data), NEWLINE) ==> !(path + " " <= TrimSpace(line))
  {
    var t := TrimNewlines(data);
    TrimmedIsPrefix(data);
    forall line | line in Split(t, NEWLINE) && path + " " <= TrimSpace(line)
      ensures false
    {
      EntryContains(line, path);
      var i := LineInText(t, line);
      ContainsPart(t, i, line, path);
      assert t <= data[0..];
      ContainsPart(data, 0, t, path);
    }
  }

  /** Without a marker in the text, removing the entry again restores the lines. */
  lemma EntryRemoved(data: string)
    requires !Contains(data, SWAP_FILE) && !HasMarker(data)
    ensures RemovedLine(AppendLine(data, SWAP_LINE), SWAP_FILE) == TrimNewlines(data) + "\n"
  {
    var t := TrimNewlines(data);
    var lines := Split(t, NEWLINE);
    AppendedLines(data);
    TrimKeepsMarker(data);
    LinesNameNoPath(data, SWAP_FILE);
    forall k | 0 <= k < |lines|
      ensures !Dropped(lines[k], SWAP_FILE)
    {
      assert lines[k] in lines;
    }
    KeepAll(lines, [MARKER, SWAP_LINE, ""], SWAP_FILE);
    EntryIsDropped();
    assert lines + [] == lines;
    JoinSplit(t);
    TrimmedIsPrefix(data);
  }

  /** No marker survives a removal. */
  lemma RemovalHasNoMarker(data: string, path: string)
    ensures !HasMarker(RemovedLine(data, path))
  {
    var kept := Keep(Split(data, NEWLINE), path, false);
    var joined := JoinLines(kept);
    KeptLines(Split(data, NEWLINE), path, false);
    PartsAreClean(data, NEWLINE);
    if kept != [] {
      forall k | 0 <= k < |kept|
        ensures NEWLINE !in kept[k]
      {
        assert kept[k] in kept;
      }
      SplitJoin(kept);
    }
    assert !HasMarker(joined);
    TrimKeepsMarker(joined);
    var t := TrimNewlines(joined);
    EmptyLastLine(t);
    assert TrimSpace("") != MARKER;
  }

  /** Adding the swap entry to a text that does not mention the swap file and removing it
      again gives back the text, with one newline at the end, exactly if the text has no
      marker line of its own. */
  lemma RoundTripIff(data: string)
    requires !Contains(data, SWAP_FILE)
    ensures RemovedLine(AppendLine(data, SWAP_LINE), SWAP_FILE) == TrimNewlines(data) + "\n" <==> !HasMarker(data)
  {
    if HasMarker(data) {
      RemovalHasNoMarker(AppendLine(data, SWAP_LINE), SWAP_FILE);
      TrimKeepsMarker(data);
      EmptyLastLine(TrimNewlines(data));
    } else {
      EntryRemoved(data);
    }
  }
}
