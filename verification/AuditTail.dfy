/**
 `readAuditTail` of `internal/server/audit.go`: reading an audit file from its
 end, one block at a time, until enough events have been found.  Its meaning is
 that of reading the whole file and reversing it.
 */
module AuditTail {
  import opened Prelude
  import opened Splitting

  const BLOCK_SIZE := 65536
  const MAX_LINE := 0x10_0000
  const NEWLINE: Byte := 10

  /** Trims a line and parses what is left, or finds no event in it. */
  type Decoder<!E> = seq<Byte> -> Option<E>

  datatype ReadError = NotExist | ReadFailed | LineTooLong

  /** The event of a line; an empty line has none. */
  function LineEvent<E>(decode: Decoder<E>, line: seq<Byte>): seq<E> {
    if line == [] then [] else
      match decode(line)
      case Some(e) => [e]
      case None => []
  }

  /** The events of some lines, last line first. */
  ghost function Newest<E>(decode: Decoder<E>, lines: seq<seq<Byte>>): seq<E> {
    if lines == [] then [] else LineEvent(decode, lines[|lines| - 1]) + Newest(decode, lines[..|lines| - 1])
  }

  /** The events of a file, newest first. */
  ghost function FileEvents<E>(decode: Decoder<E>, file: seq<Byte>): seq<E> {
    Newest(decode, Split(file, NEWLINE))
  }

  function Take<T>(s: seq<T>, n: nat): seq<T> {
    if |s| <= n then s else s[..n]
  }

  lemma TakeNext<T>(s: seq<T>, next: seq<T>, n: nat)
    requires |Take(s, n)| < n && |next| <= 1
    ensures Take(s + next, n) == Take(s, n) + next
  {
  }

  lemma TakeFull<T>(s: seq<T>, more: seq<T>, n: nat)
    requires |Take(s, n)| >= n || more == []
    ensures Take(s + more, n) == Take(s, n)
  {
  }

  lemma Assoc<T>(x: seq<T>, y: seq<T>, z: seq<T>)
    ensures x + (y + z) == x + y + z
  {
  }

  lemma {:induction false} NewestAppend<E>(decode: Decoder<E>, x: seq<seq<Byte>>, y: seq<seq<Byte>>)
    ensures Newest(decode, x + y) == Newest(decode, y) + Newest(decode, x)
    decreases |y|
  {
    if y == [] {
      assert x + y == x;
    } else {
      NewestAppend(decode, x, y[..|y| - 1]);
      assert (x + y)[..|x + y| - 1] == x + y[..|y| - 1];
      assert (x + y)[|x + y| - 1] == y[|y| - 1];
    }
  }

  lemma NewestLine<E>(decode: Decoder<E>, lines: seq<seq<Byte>>, i: nat)
    requires i < |lines|
    ensures Newest(decode, lines[i..]) == Newest(decode, lines[i + 1..]) + LineEvent(decode, lines[i])
  {
    NewestAppend(decode, [lines[i]], lines[i + 1..]);
    assert lines[i..] == [lines[i]] + lines[i + 1..];
    assert [lines[i]][..0] == [];
  }

  /** The complete lines of the part of the file that starts at `position`. */
  ghost function LinesFrom(file: seq<Byte>, position: nat): seq<seq<Byte>>
    requires position <= |file|
  {
    if position == 0 then Split(file, NEWLINE) else Split(file[position..], NEWLINE)[1..]
  }

  /** The line that straddles `position`, as far as it lies behind it. */
  ghost function Straddling(file: seq<Byte>, position: nat): seq<Byte>
    requires position <= |file|
  {
    Split(file[position..], NEWLINE)[0]
  }

  /** Reading one more block puts the straddling line together and finds the lines before it. */
  lemma BlockLines(file: seq<Byte>, position: nat, before: nat)
    requires before < position <= |file|
    ensures var lines := Split(file[before..position] + Straddling(file, position), NEWLINE);
            && Split(file[before..], NEWLINE) == lines + LinesFrom(file, position)
            && Straddling(file, before) == lines[0]
            && LinesFrom(file, before) == (if before == 0 then lines else lines[1..]) + LinesFrom(file, position)
  {
    Rejoin(file, before, position);
    SplitAppend(file[before..position], file[position..], NEWLINE);
    Rejoin(file, 0, position);
  }

  lemma Rejoin(file: seq<Byte>, before: nat, position: nat)
    requires before <= position <= |file|
    ensures file[before..position] + file[position..] == file[before..] && file[0..] == file
  {
  }

  /** The events behind `position` are the newest of the whole file. */
  lemma NewestBehind<E>(decode: Decoder<E>, file: seq<Byte>, position: nat) returns (older: seq<E>)
    requires position <= |file|
    ensures FileEvents(decode, file) == Newest(decode, LinesFrom(file, position)) + older
  {
    if position == 0 {
      older := [];
    } else {
      BlockLines(file, position, 0);
      var lines := Split(file[0..position] + Straddling(file, position), NEWLINE);
      NewestAppend(decode, lines, LinesFrom(file, position));
      older := Newest(decode, lines);
    }
  }

  /** A line that straddles a position is part of a line of the file that is at least as long. */
  lemma StraddlingIsInALine(file: seq<Byte>, position: nat) returns (line: seq<Byte>)
    requires 0 < position <= |file|
    ensures line in Split(file, NEWLINE) && |line| >= |Straddling(file, position)|
  {
    BlockLines(file, position, 0);
    var head := file[0..position];
    PartsAreClean(file[position..], NEWLINE);
    LastPartCovers(head, Straddling(file, position), NEWLINE);
    var lines := Split(head + Straddling(file, position), NEWLINE);
    line := lines[|lines| - 1];
    assert file[0..] == file;
    assert Split(file, NEWLINE)[|lines| - 1] == line;
  }

  lemma ScanStep<E>(decode: Decoder<E>, lines: seq<seq<Byte>>, i: nat, limit: nat, all: seq<E>)
    requires i < |lines| && |Take(all + Newest(decode, lines[i + 1..]), limit)| < limit
    ensures Take(all + Newest(decode, lines[i..]), limit)
            == Take(all + Newest(decode, lines[i + 1..]), limit) + LineEvent(decode, lines[i])
  {
    var later, event := Newest(decode, lines[i + 1..]), LineEvent(decode, lines[i]);
    NewestLine(decode, lines, i);
    Assoc(all, later, event);
    TakeNext(all + later, event, limit);
  }

  lemma ScanFull<E>(decode: Decoder<E>, lines: seq<seq<Byte>>, start: nat, i: nat, limit: nat, all: seq<E>)
    requires start <= i <= |lines| && |Take(all + Newest(decode, lines[i..]), limit)| >= limit
    ensures Take(all + Newest(decode, lines[start..]), limit) == Take(all + Newest(decode, lines[i..]), limit)
  {
    var later, earlier := Newest(decode, lines[i..]), Newest(decode, lines[start..i]);
    NewestAppend(decode, lines[start..i], lines[i..]);
    assert lines[start..i] + lines[i..] == lines[start..];
    Assoc(all, later, earlier);
    TakeFull(all + later, earlier, limit);
  }

  /** The inner loop: adds the events of `lines[start..]`, last line first, up to the limit. */
  method ScanLines<E>(decode: Decoder<E>, lines: seq<seq<Byte>>, start: nat, limit: nat, found: seq<E>,
                      ghost all: seq<E>)
    returns (out: seq<E>)
    requires start <= |lines| && found == Take(all, limit)
    ensures out == Take(all + Newest(decode, lines[start..]), limit)
  {
    out := found;
    var i := |lines|;
    assert all + Newest(decode, lines[|lines|..]) == all;
    while i > start && |out| < limit
      invariant start <= i <= |lines|
      invariant out == Take(all + Newest(decode, lines[i..]), limit)
    {
      i := i - 1;
      ScanStep(decode, lines, i, limit, all);
      out := out + LineEvent(decode, lines[i]);
    }
    if i > start {
      ScanFull(decode, lines, start, i, limit, all);
    }
  }

  /** Whenever this returns without an error, it returns the newest events of the whole
      file; it fails only for a missing file, a failing read or an overlong line.
      `readable` says at which offsets reading succeeds. */
  method ReadAuditTail<E>(file: Option<seq<Byte>>, readable: nat -> bool, limit: nat, decode: Decoder<E>)
    returns (r: Result<seq<E>, ReadError>)
    ensures r == Err(NotExist) <==> file.None?
    ensures r.Ok? ==> r.value == Take(FileEvents(decode, file.value), limit)
    ensures r == Err(ReadFailed) ==> exists p: nat :: p < |file.value| && !readable(p)
    ensures r == Err(LineTooLong) ==> exists line :: line in Split(file.value, NEWLINE) && |line| > MAX_LINE
  {
    if file.None? {
      return Err(NotExist);
    }
    var data := file.value;
    var position := |data|;
    var prefix: seq<Byte> := [];
    var out := [];
    assert data[|data|..] == [];
    while position > 0 && |out| < limit
      invariant 0 <= position <= |data|
      invariant position > 0 ==> prefix == Straddling(data, position)
      invariant out == Take(Newest(decode, LinesFrom(data, position)), limit)
    {
      ghost var behind := Newest(decode, LinesFrom(data, position));
      var readSize := BLOCK_SIZE;
      if position < readSize {
        readSize := position;
      }
      BlockLines(data, position, position - readSize);
      ghost var known := LinesFrom(data, position);
      position := position - readSize;
      if !readable(position) {
        return Err(ReadFailed);
      }
      var chunk := data[position..position + readSize];
      var lines := Split(chunk + prefix, NEWLINE);
      var start := 0;
      if position > 0 {
        prefix := lines[0];
        start := 1;
      } else {
        prefix := [];
        assert lines[0..] == lines;
      }
      NewestAppend(decode, lines[start..], known);
      out := ScanLines(decode, lines, start, limit, out, behind);
      if |prefix| > MAX_LINE {
        ghost var line := StraddlingIsInALine(data, position);
        return Err(LineTooLong);
      }
    }
    ghost var older := NewestBehind(decode, data, position);
    return Ok(out);
  }
}
