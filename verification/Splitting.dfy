/** Cutting a sequence at a separator, as `bytes.Split` and `strings.Split` do. */
module Splitting {

  /** One more element in front. */
  function Push<T(==)>(c: T, parts: seq<seq<T>>, sep: T): (r: seq<seq<T>>)
    requires |parts| > 0
    ensures |r| > 0
  {
    if c == sep then [[]] + parts else [[c] + parts[0]] + parts[1..]
  }

  function Split<T(==)>(s: seq<T>, sep: T): (parts: seq<seq<T>>)
    ensures |parts| > 0
  {
    if s == [] then [[]] else Push(s[0], Split(s[1..], sep), sep)
  }

  /** Putting the parts back together with separators between them. */
  function Join<T>(parts: seq<seq<T>>, sep: T): seq<T>
    requires |parts| > 0
  {
    if |parts| == 1 then parts[0] else parts[0] + [sep] + Join(parts[1..], sep)
  }

  /** A text without separators is one part. */
  lemma {:induction false} SplitOne<T>(s: seq<T>, sep: T)
    requires sep !in s
    ensures Split(s, sep) == [s]
  {
    if s != [] {
      SplitOne(s[1..], sep);
      assert [s[0]] + s[1..] == s;
    }
  }

  /** No part contains the separator. */
  lemma {:induction false} PartsAreClean<T>(s: seq<T>, sep: T)
    ensures forall k :: 0 <= k < |Split(s, sep)| ==> sep !in Split(s, sep)[k]
  {
    if s != [] {
      PartsAreClean(s[1..], sep);
    }
  }

  lemma PushAppend<T>(c: T, parts: seq<seq<T>>, others: seq<seq<T>>, sep: T)
    requires |parts| > 0
    ensures Push(c, parts + others, sep) == Push(c, parts, sep) + others
  {
    if c != sep {
      assert (parts + others)[0] == parts[0] && (parts + others)[1..] == parts[1..] + others;
    }
  }

  lemma SplitFront<T>(x: seq<T>, y: seq<T>, sep: T)
    requires x != []
    ensures Split(x + y, sep) == Push(x[0], Split(x[1..] + y, sep), sep)
  {
    assert (x + y)[1..] == x[1..] + y;
  }

  /** What precedes a text only affects its first part. */
  lemma {:induction false} SplitAppend<T>(x: seq<T>, y: seq<T>, sep: T)
    ensures Split(x + y, sep) == Split(x + Split(y, sep)[0], sep) + Split(y, sep)[1..]
  {
    var first, others := Split(y, sep)[0], Split(y, sep)[1..];
    if x == [] {
      PartsAreClean(y, sep);
      SplitOne(first, sep);
      assert x + y == y && x + first == first;
    } else {
      SplitAppend(x[1..], y, sep);
      SplitFront(x, y, sep);
      SplitFront(x, first, sep);
      PushAppend(x[0], Split(x[1..] + first, sep), others, sep);
    }
  }

  /** The last part of a text is at least as long as any clean text it ends in. */
  lemma {:induction false} LastPartCovers<T>(x: seq<T>, y: seq<T>, sep: T)
    requires sep !in y
    ensures var parts := Split(x + y, sep); |parts[|parts| - 1]| >= |y|
  {
    if x == [] {
      SplitOne(y, sep);
      assert x + y == y;
    } else {
      LastPartCovers(x[1..], y, sep);
      SplitFront(x, y, sep);
    }
  }
}
