/**
 The compression function F as section 3 of RFC 7693 writes it: sixteen indexed words that
 change one after the other.
 */
module Rfc7693 {
  import opened Prelude
  import opened Blake2b

  type Words = v: seq<Word> | |v| == 16 witness [0, 0, 0, 0, 0, 0, 0, 0, 0, 0, 0, 0, 0, 0, 0, 0]

  /** The message schedule of section 2.7, as rounds 0 to 9 use it. */
  const SIGMA: seq<seq<nat>> := [
    [0, 1, 2, 3, 4, 5, 6, 7, 8, 9, 10, 11, 12, 13, 14, 15],
    [14, 10, 4, 8, 9, 15, 13, 6, 1, 12, 0, 2, 11, 7, 5, 3],
    [11, 8, 12, 0, 5, 2, 15, 13, 10, 14, 3, 6, 7, 1, 9, 4],
    [7, 9, 3, 1, 13, 12, 11, 14, 2, 6, 5, 10, 4, 0, 15, 8],
    [9, 0, 5, 7, 2, 4, 10, 15, 14, 1, 11, 12, 6, 8, 3, 13],
    [2, 12, 6, 10, 0, 11, 8, 3, 4, 13, 7, 5, 15, 14, 1, 9],
    [12, 5, 1, 15, 14, 13, 4, 10, 0, 7, 6, 3, 9, 2, 8, 11],
    [13, 11, 7, 14, 12, 1, 3, 9, 5, 0, 15, 4, 8, 6, 2, 10],
    [6, 15, 14, 9, 11, 3, 0, 8, 12, 2, 13, 7, 1, 4, 10, 5],
    [10, 2, 8, 4, 7, 6, 1, 5, 15, 11, 9, 14, 3, 12, 13, 0]
  ]

  predicate IsRow(s: seq<nat>) {
    |s| == 16 && forall k :: 0 <= k < 16 ==> s[k] < 16
  }

  type Row = s: seq<nat> | IsRow(s) witness [0, 0, 0, 0, 0, 0, 0, 0, 0, 0, 0, 0, 0, 0, 0, 0]

  lemma FirstRows(r: nat)
    requires r < 5
    ensures |SIGMA| == 10 && IsRow(SIGMA[r])
  {
    assert r == 0 || r == 1 || r == 2 || r == 3 || r == 4;
  }

  lemma LastRows(r: nat)
    requires 5 <= r < 10
    ensures |SIGMA| == 10 && IsRow(SIGMA[r])
  {
    assert r == 5 || r == 6 || r == 7 || r == 8 || r == 9;
  }

  /** Row `i` modulo ten of the schedule. */
  function Schedule(i: nat): (s: Row)
    ensures |SIGMA| == 10 && s == SIGMA[i % 10]
  {
    if i % 10 < 5 then
      FirstRows(i % 10);
      SIGMA[i % 10]
    else
      LastRows(i % 10);
      SIGMA[i % 10]
  }

  /** The bytes from `i` to the end, joined from the last one on. */
  function Joined(join: (Byte, Word) -> Word, b: seq<Byte>, i: nat): Word
    requires i <= |b|
    decreases |b| - i
  {
    if i == |b| then 0 else join(b[i], Joined(join, b, i + 1))
  }

  function LowDigit(digit: Byte, higher: Word): Word {
    (digit as Word) | (higher << 8)
  }

  /** The number of which the bytes are the digits to the base 256, least significant first. */
  function LittleWord(b: seq<Byte>): Word {
    Joined(LowDigit, b, 0)
  }

  // ----- The mixing function G, section 3.1 -----

  datatype Four = Four(a: Word, b: Word, c: Word, d: Word)

  /** Half of G. */
  type Half = (Four, Word) -> Four

  /** The first four lines of G. */
  function FirstHalf(v: Four, x: Word): Four {
    var a := v.a + v.b + x;
    var d := (v.d ^ a).RotateRight(32);
    var c := v.c + d;
    Four(a, (v.b ^ c).RotateRight(24), c, d)
  }

  /** The last four lines of G. */
  function SecondHalf(v: Four, y: Word): Four {
    var a := v.a + v.b + y;
    var d := (v.d ^ a).RotateRight(16);
    var c := v.c + d;
    Four(a, (v.b ^ c).RotateRight(63), c, d)
  }

  /** G replaces the words with the indices `a`, `b`, `c` and `d`. */
  function Mix(first: Half, second: Half, v: Words, a: nat, b: nat, c: nat, d: nat, x: Word, y: Word): Words
    requires a < 16 && b < 16 && c < 16 && d < 16
  {
    var q := second(first(Four(v[a], v[b], v[c], v[d]), x), y);
    v[a := q.a][b := q.b][c := q.c][d := q.d]
  }

  // ----- The compression function F, section 3.2 -----

  /** The columns of one round. */
  function MixColumns(first: Half, second: Half, v: Words, m: Words, s: Row): Words
  {
    var v1 := Mix(first, second, v, 0, 4, 8, 12, m[s[0]], m[s[1]]);
    var v2 := Mix(first, second, v1, 1, 5, 9, 13, m[s[2]], m[s[3]]);
    var v3 := Mix(first, second, v2, 2, 6, 10, 14, m[s[4]], m[s[5]]);
    Mix(first, second, v3, 3, 7, 11, 15, m[s[6]], m[s[7]])
  }

  /** And the diagonals. */
  function MixDiagonals(first: Half, second: Half, v: Words, m: Words, s: Row): Words
  {
    var v1 := Mix(first, second, v, 0, 5, 10, 15, m[s[8]], m[s[9]]);
    var v2 := Mix(first, second, v1, 1, 6, 11, 12, m[s[10]], m[s[11]]);
    var v3 := Mix(first, second, v2, 2, 7, 8, 13, m[s[12]], m[s[13]]);
    Mix(first, second, v3, 3, 4, 9, 14, m[s[14]], m[s[15]])
  }

  function MixRound(first: Half, second: Half, v: Words, m: Words, s: Row): Words
  {
    MixDiagonals(first, second, MixColumns(first, second, v, m, s), m, s)
  }

  /** A round on the words of a message block. */
  function RoundOn(m: Words): (Words, Row) -> Words {
    (v: Words, s: Row) => MixRound(FirstHalf, SecondHalf, v, m, s)
  }

  /** The first `n` rounds. */
  function MixRounds(round: (Words, Row) -> Words, v: Words, n: nat): Words {
    if n == 0 then v else round(MixRounds(round, v, n - 1), Schedule(n - 1))
  }

  /** The working words before the first round: chain value, IV, low and high word of the
      counter, and the final block flag. */
  function InitialWords(h: Chain, t0: Word, t1: Word, flag: Word): Words {
    (h + IV)[12 := IV[4] ^ t0][13 := IV[5] ^ t1][14 := IV[6] ^ flag]
  }

  /** The words of a message block, section 3.2. */
  function MessageWords(block: seq<Byte>): Words
    requires |block| == BLOCK
  {
    seq(16, k requires 0 <= k < 16 => LittleWord(block[8 * k..8 * k + 8]))
  }

  function Xor(a: Word, b: Word, c: Word): Word {
    a ^ b ^ c
  }

  /** Both halves of the working words are mixed into the chain value. */
  function Combined(xor: (Word, Word, Word) -> Word, h: Chain, v: Words): Chain {
    [xor(h[0], v[0], v[8]), xor(h[1], v[1], v[9]), xor(h[2], v[2], v[10]), xor(h[3], v[3], v[11]),
     xor(h[4], v[4], v[12]), xor(h[5], v[5], v[13]), xor(h[6], v[6], v[14]), xor(h[7], v[7], v[15])]
  }

  /** F, section 3.2. */
  function F(h: Chain, block: seq<Byte>, c0: uint64, c1: uint64, flag: Word): Chain {
    if |block| != BLOCK then h else
      var v := InitialWords(h, c0 as Word, c1 as Word, flag);
      Combined(Xor, h, MixRounds(RoundOn(MessageWords(block)), v, 12))
  }
}
