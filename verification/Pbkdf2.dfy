/**
 `pbkdf2` of `internal/auth/password.go` against section 5.2 of RFC 8018.  The
 pseudorandom function (HMAC under the password) is a parameter; all that is asked
 of it is that its output has a fixed length.
 */
module Pbkdf2 {
  import opened Octets
  import opened Prelude

  /** HMAC with the password as its key. */
  type Prf = seq<Byte> -> seq<Byte>

  ghost predicate OutputLength(prf: Prf, hLen: nat) {
    hLen > 0 && forall m: seq<Byte> :: |prf(m)| == hLen
  }

  /** The four-octet encoding of a block index, most significant octet first. */
  function BlockIndex(i: nat): seq<Byte> {
    [(i / 0x100_0000 % 256) as Byte, (i / 0x1_0000 % 256) as Byte, (i / 256 % 256) as Byte, (i % 256) as Byte]
  }

  function Xor(a: seq<Byte>, b: seq<Byte>): (r: seq<Byte>)
    requires |a| == |b|
    ensures |r| == |a|
  {
    seq(|a|, k requires 0 <= k < |a| => a[k] ^ b[k])
  }

  /** The iterate U_j of block `i`. */
  ghost function U(prf: Prf, salt: seq<Byte>, i: nat, j: nat): seq<Byte>
    requires j >= 1
  {
    if j == 1 then prf(salt + BlockIndex(i)) else prf(U(prf, salt, i, j - 1))
  }

  /** The block T_i: the exclusive or of the first `c` iterates. */
  ghost function T(prf: Prf, salt: seq<Byte>, c: nat, i: nat, hLen: nat): (t: seq<Byte>)
    requires c >= 1 && OutputLength(prf, hLen)
    ensures |t| == hLen
  {
    if c == 1 then U(prf, salt, i, 1) else Xor(T(prf, salt, c - 1, i, hLen), U(prf, salt, i, c))
  }

  /** The first `n` blocks, concatenated. */
  ghost function Blocks(prf: Prf, salt: seq<Byte>, c: nat, n: nat, hLen: nat): (b: seq<Byte>)
    requires c >= 1 && OutputLength(prf, hLen)
    ensures |b| == n * hLen
  {
    if n == 0 then [] else Blocks(prf, salt, c, n - 1, hLen) + T(prf, salt, c, n, hLen)
  }

  /** How many blocks a key of a given length needs. */
  function BlockCount(length: nat, hLen: nat): (n: nat)
    requires hLen > 0
    ensures length <= n * hLen && (length > 0 ==> (n - 1) * hLen < length)
    ensures length == 0 ==> n == 0
  {
    CeilingDivision(length, hLen);
    (length + hLen - 1) / hLen
  }

  lemma CeilingDivision(length: nat, hLen: nat)
    requires hLen > 0
    ensures var n := (length + hLen - 1) / hLen;
            length <= n * hLen && (length > 0 ==> (n - 1) * hLen < length) && (length == 0 ==> n == 0)
  {
    var n, r := (length + hLen - 1) / hLen, (length + hLen - 1) % hLen;
    assert length + hLen - 1 == n * hLen + r;
    assert (n - 1) * hLen == n * hLen - hLen;
    if length == 0 && n >= 1 {
      MulAtLeast(n, hLen);
      assert false;
    }
  }

  lemma MulAtLeast(n: nat, h: nat)
    requires n >= 1
    ensures n * h >= h
  {
    assert n * h == (n - 1) * h + h;
  }

  /** The derived key of section 5.2. */
  ghost function DerivedKey(prf: Prf, salt: seq<Byte>, c: nat, length: nat, hLen: nat): (dk: seq<Byte>)
    requires c >= 1 && OutputLength(prf, hLen)
    ensures |dk| == length
  {
    Blocks(prf, salt, c, BlockCount(length, hLen), hLen)[..length]
  }

  // ----- The loops -----

  method XorInto(t: array<Byte>, u: seq<Byte>)
    requires t.Length == |u|
    modifies t
    ensures t[..] == Xor(old(t[..]), u)
  {
    for j := 0 to t.Length
      invariant forall k :: 0 <= k < j ==> t[k] == old(t[k]) ^ u[k]
      invariant forall k :: j <= k < t.Length ==> t[k] == old(t[k])
    {
      t[j] := t[j] ^ u[j];
    }
  }

  method DeriveBlock(prf: Prf, salt: seq<Byte>, iterations: int, block: nat, ghost hLen: nat) returns (t: array<Byte>)
    requires OutputLength(prf, hLen)
    ensures fresh(t) && t[..] == T(prf, salt, if iterations < 1 then 1 else iterations, block, hLen)
  {
    var u := prf(salt + BlockIndex(block));
    t := new Byte[|u|](k requires 0 <= k < |u| => u[k]);
    assert t[..] == u;
    var i := 1;
    while i < iterations
      invariant 1 <= i && (iterations >= 1 ==> i <= iterations)
      invariant iterations < 1 ==> i == 1
      invariant u == U(prf, salt, block, i) && t.Length == |u|
      invariant t[..] == T(prf, salt, i, block, hLen)
    {
      u := prf(u);
      XorInto(t, u);
      i := i + 1;
    }
  }

  /** The loops compute the derived key.  Fewer than one iteration counts as one. */
  method DeriveKey(prf: Prf, salt: seq<Byte>, iterations: int, length: nat, hLen: nat) returns (key: seq<Byte>)
    requires OutputLength(prf, hLen)
    ensures key == DerivedKey(prf, salt, if iterations < 1 then 1 else iterations, length, hLen)
  {
    var blocks := BlockCount(length, hLen);
    var result := [];
    for block := 1 to blocks + 1
      invariant result == Blocks(prf, salt, if iterations < 1 then 1 else iterations, block - 1, hLen)
    {
      var t := DeriveBlock(prf, salt, iterations, block, hLen);
      result := result + t[..];
    }
    key := result[..length];
  }

  // ----- What the derived key is -----

  /** Byte `x` of the exclusive or of the first `c` iterates. */
  ghost function XorOfIterates(prf: Prf, salt: seq<Byte>, c: nat, i: nat, x: nat, hLen: nat): Byte
    requires c >= 1 && OutputLength(prf, hLen) && x < hLen
  {
    if c == 1 then U(prf, salt, i, 1)[x] else XorOfIterates(prf, salt, c - 1, i, x, hLen) ^ U(prf, salt, i, c)[x]
  }

  lemma BelowBlocks(i: nat, x: nat, n: nat, h: nat)
    requires i * h + x < n * h
    ensures i < n
  {
    if i >= n {
      Scale(n, i, h);
    }
  }

  lemma Scale(m: nat, n: nat, h: nat)
    requires m <= n
    ensures m * h <= n * h
  {
    assert n * h == m * h + (n - m) * h;
  }

  /** Byte `x` of block `i` of the key depends on nothing but the iterates of that block,
      so a shorter key is a prefix of a longer one. */
  lemma KeyByte(prf: Prf, salt: seq<Byte>, c: nat, length: nat, i: nat, x: nat, hLen: nat)
    requires c >= 1 && OutputLength(prf, hLen) && x < hLen && i * hLen + x < length
    ensures DerivedKey(prf, salt, c, length, hLen)[i * hLen + x] == XorOfIterates(prf, salt, c, i + 1, x, hLen)
  {
    var n := BlockCount(length, hLen);
    KeyIsPrefixOfBlocks(prf, salt, c, length, i * hLen + x, hLen);
    BelowBlocks(i, x, n, hLen);
    BlocksAt(prf, salt, c, n, i, x, hLen);
    BlockByte(prf, salt, c, i + 1, x, hLen);
  }

  lemma KeyIsPrefixOfBlocks(prf: Prf, salt: seq<Byte>, c: nat, length: nat, k: nat, hLen: nat)
    requires c >= 1 && OutputLength(prf, hLen) && k < length
    ensures k < BlockCount(length, hLen) * hLen
    ensures DerivedKey(prf, salt, c, length, hLen)[k] == Blocks(prf, salt, c, BlockCount(length, hLen), hLen)[k]
  {
  }

  lemma {:induction false} BlocksPrefix(prf: Prf, salt: seq<Byte>, c: nat, m: nat, n: nat, hLen: nat)
    requires c >= 1 && OutputLength(prf, hLen) && m <= n
    ensures Blocks(prf, salt, c, m, hLen) <= Blocks(prf, salt, c, n, hLen)
  {
    if m < n {
      BlocksPrefix(prf, salt, c, m, n - 1, hLen);
    }
  }

  lemma {:induction false} BlockByte(prf: Prf, salt: seq<Byte>, c: nat, i: nat, x: nat, hLen: nat)
    requires c >= 1 && OutputLength(prf, hLen) && x < hLen
    ensures T(prf, salt, c, i, hLen)[x] == XorOfIterates(prf, salt, c, i, x, hLen)
  {
    if c > 1 {
      BlockByte(prf, salt, c - 1, i, x, hLen);
    }
  }

  /** Block `i` of the concatenation stands at `i * hLen`. */
  lemma BlocksAt(prf: Prf, salt: seq<Byte>, c: nat, n: nat, i: nat, x: nat, hLen: nat)
    requires c >= 1 && OutputLength(prf, hLen) && i < n && x < hLen
    ensures i * hLen + x < n * hLen
    ensures Blocks(prf, salt, c, n, hLen)[i * hLen + x] == T(prf, salt, c, i + 1, hLen)[x]
  {
    BlocksPrefix(prf, salt, c, i + 1, n, hLen);
    assert (i + 1) * hLen == i * hLen + hLen;
    Scale(i + 1, n, hLen);
    var before, block := Blocks(prf, salt, c, i, hLen), T(prf, salt, c, i + 1, hLen);
    assert Blocks(prf, salt, c, i + 1, hLen) == before + block;
    assert (before + block)[i * hLen + x] == block[x];
  }

  lemma FewerBlocks(short: nat, long: nat, hLen: nat)
    requires short <= long && hLen > 0
    ensures BlockCount(short, hLen) <= BlockCount(long, hLen)
  {
    var m, n := BlockCount(short, hLen), BlockCount(long, hLen);
    if m > n {
      Scale(n, m - 1, hLen);
    }
  }

  lemma ShorterKeyIsPrefix(prf: Prf, salt: seq<Byte>, c: nat, short: nat, long: nat, hLen: nat)
    requires c >= 1 && OutputLength(prf, hLen) && short <= long
    ensures DerivedKey(prf, salt, c, short, hLen) == DerivedKey(prf, salt, c, long, hLen)[..short]
  {
    FewerBlocks(short, long, hLen);
    BlocksPrefix(prf, salt, c, BlockCount(short, hLen), BlockCount(long, hLen), hLen);
    PrefixOfPrefix(Blocks(prf, salt, c, BlockCount(short, hLen), hLen),
                   Blocks(prf, salt, c, BlockCount(long, hLen), hLen), short, long);
  }

  lemma PrefixOfPrefix(a: seq<Byte>, b: seq<Byte>, m: nat, n: nat)
    requires a <= b && m <= n <= |b| && m <= |a|
    ensures a[..m] == b[..n][..m]
  {
  }

  /** The four octets are the index modulo 2^32 in network byte order. */
  lemma BlockIndexValue(i: nat)
    ensures var b, n := BlockIndex(i), BigEndian(i % 0x1_0000_0000, 4);
            |b| == 4 && forall k :: 0 <= k < 4 ==> b[k] == n[k] as Byte
    ensures FromBigEndian(BigEndian(i % 0x1_0000_0000, 4), 0, 4) == i % 0x1_0000_0000
  {
    FourOctets(i % 0x1_0000_0000);
    LowOctets(i);
    assert Limit(1) == 256 && Limit(2) == 0x1_0000 && Limit(3) == 0x100_0000 && Limit(4) == 0x1_0000_0000;
    ReadBigEndian(BigEndian(i % 0x1_0000_0000, 4), 0, 4, i % 0x1_0000_0000);
  }

  lemma FourOctets(n: nat)
    ensures BigEndian(n, 4) == [n / 0x100_0000 % 256, n / 0x1_0000 % 256, n / 256 % 256, n % 256]
  {
    Quotients(n);
    var b1, b2, b3 := BigEndian(n / 0x100_0000, 1), BigEndian(n / 0x1_0000, 2), BigEndian(n / 256, 3);
    assert BigEndian(n / 0x100_0000 / 256, 0) == [];
    assert b1 == [n / 0x100_0000 % 256];
    assert b2 == b1 + [n / 0x1_0000 % 256];
    assert b3 == b2 + [n / 256 % 256];
  }

  /** The low octets do not change modulo 2^32. */
  lemma LowOctets(i: nat)
    ensures var n := i % 0x1_0000_0000;
            && n / 0x100_0000 % 256 == i / 0x100_0000 % 256 && n / 0x1_0000 % 256 == i / 0x1_0000 % 256
            && n / 256 % 256 == i / 256 % 256 && n % 256 == i % 256
  {
    var q, n := i / 0x1_0000_0000, i % 0x1_0000_0000;
    LowerOctet(i, 0x100_0000, q, n);
    LowerOctet(i, 0x1_0000, q * 0x100, n);
    LowerOctet(i, 256, q * 0x1_0000, n);
    LowerOctet(i, 1, q * 0x100_0000, n);
  }

  /** Multiples of 256 times `d` do not change the octet of weight `d`. */
  lemma LowerOctet(i: nat, d: nat, m: nat, n: nat)
    requires d > 0 && i == m * 256 * d + n
    ensures n / d % 256 == i / d % 256
  {
    DivideSum(m * 256, d, n);
    DropMultiple(m, n / d);
  }

  lemma DivideSum(m: nat, d: nat, n: nat)
    requires d > 0
    ensures (m * d + n) / d == m + n / d
  {
    var r := n % d;
    assert n == n / d * d + r;
    assert m * d + n == (m + n / d) * d + r;
    Quotient((m + n / d) * d + r, d, m + n / d, r);
  }

  lemma Quotient(n: nat, d: nat, q: nat, r: nat)
    requires d > 0 && n == q * d + r && r < d
    ensures n / d == q
  {
    var p := n / d;
    assert n == p * d + n % d && (p + 1) * d == p * d + d && (q + 1) * d == q * d + d;
    if p < q {
      Scale(p + 1, q, d);
    } else if p > q {
      Scale(q + 1, p, d);
    }
  }

  lemma DropMultiple(m: nat, n: nat)
    ensures (m * 256 + n) % 256 == n % 256
  {
  }

  /** Most keys are no longer than one block: behind the salt come three zeros and a one. */
  lemma FirstBlock(prf: Prf, salt: seq<Byte>)
    ensures U(prf, salt, 1, 1) == prf(salt + [0, 0, 0, 1])
  {
    assert BlockIndex(1) == [0, 0, 0, 1];
  }

  lemma Quotients(i: nat)
    ensures i / 256 / 256 == i / 0x1_0000 && i / 0x1_0000 / 256 == i / 0x100_0000
  {
  }
}
