/** White space as Go's `strings` package sees it. */
module Text {

  /** The white space of `strings.TrimSpace`. */
  predicate IsSpace(c: char) {
    || '\t' <= c <= '\r' || c == ' ' || c == '\U{0085}' || c == '\U{00A0}' || c == '\U{1680}'
    || '\U{2000}' <= c <= '\U{200A}' || c == '\U{2028}' || c == '\U{2029}' || c == '\U{202F}'
    || c == '\U{205F}' || c == '\U{3000}'
  }

  function TrimLeft(s: string): string {
    if s != "" && IsSpace(s[0]) then TrimLeft(s[1..]) else s
  }

  function TrimRight(s: string): string {
    if s != "" && IsSpace(s[|s| - 1]) then TrimRight(s[..|s| - 1]) else s
  }

  function TrimSpace(s: string): string {
    TrimRight(TrimLeft(s))
  }

  ghost predicate AllSpace(s: string) {
    forall c :: c in s ==> IsSpace(c)
  }

  lemma {:induction false} TrimLeftPart(s: string) returns (before: string)
    ensures s == before + TrimLeft(s) && AllSpace(before)
    ensures TrimLeft(s) != "" ==> !IsSpace(TrimLeft(s)[0])
  {
    before := "";
    if s != "" && IsSpace(s[0]) {
      before := TrimLeftPart(s[1..]);
      before := [s[0]] + before;
    }
  }

  lemma {:induction false} TrimRightPart(s: string) returns (behind: string)
    ensures s == TrimRight(s) + behind && AllSpace(behind)
    ensures TrimRight(s) != "" ==> TrimRight(s)[0] == s[0] && !IsSpace(TrimRight(s)[|TrimRight(s)| - 1])
  {
    behind := "";
    if s != "" && IsSpace(s[|s| - 1]) {
      behind := TrimRightPart(s[..|s| - 1]);
      behind := behind + [s[|s| - 1]];
    }
  }

  /** What is trimmed off is white space, and what is left has none at its ends. */
  lemma TrimmedParts(s: string) returns (before: string, behind: string)
    ensures s == before + TrimSpace(s) + behind && AllSpace(before) && AllSpace(behind)
    ensures var t := TrimSpace(s); t != "" ==> !IsSpace(t[0]) && !IsSpace(t[|t| - 1])
  {
    before := TrimLeftPart(s);
    behind := TrimRightPart(TrimLeft(s));
  }

  lemma {:induction false} TrimLeftAround(before: string, s: string)
    requires AllSpace(before)
    ensures TrimLeft(before + s) == TrimLeft(s)
  {
    if before == "" {
      assert before + s == s;
    } else {
      assert (before + s)[1..] == before[1..] + s;
      TrimLeftAround(before[1..], s);
    }
  }

  lemma {:induction false} TrimRightAround(s: string, behind: string)
    requires AllSpace(behind)
    ensures TrimRight(s + behind) == TrimRight(s)
  {
    if behind == "" {
      assert s + behind == s;
    } else {
      var most := behind[..|behind| - 1];
      assert (s + behind)[..|s + behind| - 1] == s + most;
      TrimRightAround(s, most);
    }
  }

  lemma {:induction false} TrimLeftBefore(s: string, behind: string)
    requires TrimLeft(s) != ""
    ensures TrimLeft(s + behind) == TrimLeft(s) + behind
  {
    if IsSpace(s[0]) {
      assert (s + behind)[1..] == s[1..] + behind;
      TrimLeftBefore(s[1..], behind);
    }
  }

  /** White space around a text makes no difference. */
  lemma TrimAround(before: string, s: string, behind: string)
    requires AllSpace(before) && AllSpace(behind)
    ensures TrimSpace(before + s + behind) == TrimSpace(s)
  {
    assert before + s + behind == before + (s + behind);
    TrimLeftAround(before, s + behind);
    if TrimLeft(s) == "" {
      var all := TrimLeftPart(s);
      assert s == all;
      TrimLeftAround(s, behind);
      TrimLeftAround(behind, "");
      assert behind + "" == behind;
    } else {
      TrimLeftBefore(s, behind);
      TrimRightAround(TrimLeft(s), behind);
    }
  }
}
