/**
 The streaming BLAKE2b digest of `internal/crypto/blake2b/blake2b.go`: the block
 buffer that always holds the last block back and the 128-bit byte counter kept
 in two 64-bit words.  The compression function is a parameter `f` here; module
 `Blake2bMixing` supplies the real one.
 */
module Blake2b {
  import opened Prelude

  const BLOCK := 128
  const SIZE := 64
  const FINAL: Word := 0xFFFF_FFFF_FFFF_FFFF

  type Chain = h: seq<Word> | |h| == 8 witness [0, 0, 0, 0, 0, 0, 0, 0]

  /** Chain value, block, low and high counter word, finalization flag. */
  type Compression = (Chain, seq<Byte>, uint64, uint64, Word) -> Chain

  const IV: Chain := [
    0x6a09e667f3bcc908, 0xbb67ae8584caa73b, 0x3c6ef372fe94f82b, 0xa54ff53a5f1d36f1,
    0x510e527fade682d1, 0x9b05688c2b3e6c1f, 0x1f83d9abfb41bd6b, 0x5be0cd19137e2179
  ]

  datatype SizeError = KeySize | HashSize

  // ----- Section 3.3 of RFC 7693 -----

  ghost function Lo(n: nat): uint64 { (n % TWO_64) as uint64 }

  ghost function Hi(n: nat): uint64 { (n / TWO_64 % TWO_64) as uint64 }

  function Zeros(n: nat): seq<Byte> { seq(n, i => 0) }

  /** The first word of the IV with the parameters mixed in: digest length, key length,
      fanout and depth 1. */
  function FirstWord(iv: Word, nn: Word, kk: Word): Word {
    iv ^ (nn | (kk << 8) | (1 << 16) | (1 << 24))
  }

  /** The parameter fields do not overlap, so this is the word of section 3.3. */
  lemma ParameterWord(iv: Word, nn: Word, kk: Word)
    requires nn <= 64 && kk <= 64
    ensures FirstWord(iv, nn, kk) == iv ^ 0x0101_0000 ^ (kk << 8) ^ nn
  {
  }

  /** The chain value of section 3.3 before any input. */
  ghost function Initial(hashSize: nat, keyLen: nat): Chain
    requires hashSize <= SIZE && keyLen <= SIZE
  {
    IV[0 := FirstWord(IV[0], hashSize as Word, keyLen as Word)]
  }

  /** A key is processed as one block of input, padded with zeros. */
  ghost function KeyBlock(key: seq<Byte>): seq<Byte>
    requires |key| <= SIZE
  {
    if key == [] then [] else key + Zeros(BLOCK - |key|)
  }

  /** How many blocks come before the last one; the last one is never empty unless the input is. */
  ghost function BlocksBeforeLast(n: nat): (k: nat)
    ensures BLOCK * k <= n <= BLOCK * k + BLOCK
    ensures n > 0 ==> BLOCK * k < n
  {
    if n == 0 then 0 else (n - 1) / BLOCK
  }

  /** The chain value after the first `k` blocks of `m`. */
  ghost function ChainAfter(f: Compression, h: Chain, m: seq<Byte>, k: nat): Chain
    requires BLOCK * k <= |m|
  {
    if k == 0 then h else
      f(ChainAfter(f, h, m, k - 1), m[BLOCK * (k - 1)..BLOCK * k], Lo(BLOCK * k), Hi(BLOCK * k), 0)
  }

  /** The last block is padded with zeros and compressed with the total byte count. */
  ghost function LastChain(f: Compression, h: Chain, m: seq<Byte>): Chain {
    var k := BlocksBeforeLast(|m|);
    var last := m[BLOCK * k..];
    f(ChainAfter(f, h, m, k), last + Zeros(BLOCK - |last|), Lo(|m|), Hi(|m|), FINAL)
  }

  function LittleEndian(w: Word): (b: seq<Byte>)
    ensures |b| == 8
  {
    [(w & 0xFF) as Byte, ((w >> 8) & 0xFF) as Byte, ((w >> 16) & 0xFF) as Byte, ((w >> 24) & 0xFF) as Byte,
     ((w >> 32) & 0xFF) as Byte, ((w >> 40) & 0xFF) as Byte, ((w >> 48) & 0xFF) as Byte, ((w >> 56) & 0xFF) as Byte]
  }

  function Serialize(h: seq<Word>): (b: seq<Byte>)
    ensures |b| == 8 * |h|
  {
    if h == [] then [] else Serialize(h[..|h| - 1]) + LittleEndian(h[|h| - 1])
  }

  /** The BLAKE2b hash of a message. */
  ghost function Hash(f: Compression, hashSize: nat, key: seq<Byte>, message: seq<Byte>): seq<Byte>
    requires hashSize <= SIZE && |key| <= SIZE
  {
    Serialize(LastChain(f, Initial(hashSize, |key|), KeyBlock(key) + message))[..hashSize]
  }

  lemma {:induction false} SerializedAt(h: seq<Word>, j: nat, k: nat)
    requires j < |h| && k < 8
    ensures Serialize(h)[8 * j + k] == LittleEndian(h[j])[k]
  {
    if j < |h| - 1 {
      SerializedAt(h[..|h| - 1], j, k);
    }
  }

  /** The octet of a word with `k` octets below it. */
  ghost function OctetAbove(w: Word, k: nat): Byte {
    if k == 0 then (w & 0xFF) as Byte else OctetAbove(w >> 8, k - 1)
  }

  lemma NextOctet(w: Word, k: nat)
    requires k < 7
    ensures LittleEndian(w >> 8)[k] == LittleEndian(w)[k + 1]
  {
  }

  lemma {:induction false} LowOctetsFirst(w: Word, k: nat)
    requires k < 8
    ensures LittleEndian(w)[k] == OctetAbove(w, k)
  {
    if k > 0 {
      LowOctetsFirst(w >> 8, k - 1);
      NextOctet(w, k - 1);
    }
  }

  /** Octet `i` of a digest is octet `i % 8` of word `i / 8` of the last chain value, the lowest
      octet being the first. */
  lemma DigestOctet(f: Compression, hashSize: nat, key: seq<Byte>, message: seq<Byte>, i: nat)
    requires i < hashSize <= SIZE && |key| <= SIZE
    ensures |Hash(f, hashSize, key, message)| == hashSize
    ensures Hash(f, hashSize, key, message)[i]
            == OctetAbove(LastChain(f, Initial(hashSize, |key|), KeyBlock(key) + message)[i / 8], i % 8)
  {
    var h := LastChain(f, Initial(hashSize, |key|), KeyBlock(key) + message);
    SerializedAt(h, i / 8, i % 8);
    LowOctetsFirst(h[i / 8], i % 8);
  }

  // ----- The counter -----

  /** Adding one block to the two counter words, with the carry. */
  function Bump(c0: uint64, c1: uint64): (uint64, uint64) {
    var low := ((c0 as int + BLOCK) % TWO_64) as uint64;
    (low, if low < 128 then ((c1 as int + 1) % TWO_64) as uint64 else c1)
  }

  /** Taking `n` off the two counter words, with the borrow. */
  function WindBack(c0: uint64, c1: uint64, n: nat): (uint64, uint64)
    requires n <= BLOCK
  {
    (((c0 as int - n) % TWO_64) as uint64, if c0 as int < n then ((c1 as int - 1) % TWO_64) as uint64 else c1)
  }

  /** The carry is exactly the one of a 128-bit addition. */
  lemma BumpAdds(n: nat)
    ensures Bump(Lo(n), Hi(n)) == (Lo(n + BLOCK), Hi(n + BLOCK))
  {
    var q, r := n / TWO_64, n % TWO_64;
    assert n == q * TWO_64 + r;
    if r + BLOCK < TWO_64 {
      DivMod(n + BLOCK, q, r + BLOCK);
    } else {
      DivMod(n + BLOCK, q + 1, r + BLOCK - TWO_64);
      WrapAdd(q);
    }
  }

  lemma DivMod(n: nat, q: nat, r: nat)
    requires n == q * TWO_64 + r && r < TWO_64
    ensures n / TWO_64 == q && n % TWO_64 == r
  {
  }

  lemma WrapAdd(q: nat)
    ensures (q % TWO_64 + 1) % TWO_64 == (q + 1) % TWO_64
  {
  }

  /** The borrow taken before the last block and the carry of that block cancel: with
      `k` hashed blocks and `offset` buffered bytes the last block is counted up to
      their sum modulo 2^128, also when nothing was hashed before. */
  lemma FinalCounter(k: nat, offset: nat)
    requires offset <= BLOCK
    ensures var b := WindBack(Lo(BLOCK * k), Hi(BLOCK * k), BLOCK - offset);
            Bump(b.0, b.1) == (Lo(BLOCK * k + offset), Hi(BLOCK * k + offset))
  {
    if offset == BLOCK {
      BumpAdds(BLOCK * k);
    } else {
      LowBlocks(k);
      NoCarry(BLOCK * k, offset);
      BorrowCarry(Hi(BLOCK * k) as int, Lo(BLOCK * k) as int, offset);
    }
  }

  lemma NoCarry(n: nat, offset: nat)
    requires n % TWO_64 + offset < TWO_64
    ensures Lo(n + offset) as int == Lo(n) as int + offset && Hi(n + offset) == Hi(n)
  {
    DivMod(n + offset, n / TWO_64, n % TWO_64 + offset);
  }

  lemma BorrowCarry(hi: nat, lo: nat, offset: nat)
    requires lo < TWO_64 && hi < TWO_64 && lo % BLOCK == 0 && offset < BLOCK
    ensures var b := WindBack(lo as uint64, hi as uint64, BLOCK - offset);
            Bump(b.0, b.1) == ((lo + offset) as uint64, hi as uint64)
  {
  }

  /** The low word of a whole number of blocks is a whole number of blocks. */
  lemma LowBlocks(k: nat)
    ensures BLOCK * k % TWO_64 % BLOCK == 0
    ensures BLOCK * k % TWO_64 <= TWO_64 - BLOCK
  {
    var q := BLOCK * k / TWO_64;
    assert BLOCK * k % TWO_64 == BLOCK * (k - q * (TWO_64 / BLOCK));
  }

  // ----- Hashing whole blocks -----

  /** Chain value and counter words. */
  datatype State = State(h: Chain, c0: uint64, c1: uint64)

  function BlockAt(m: seq<Byte>, k: nat): seq<Byte>
    requires BLOCK * k + BLOCK <= |m|
  {
    m[BLOCK * k..BLOCK * k + BLOCK]
  }

  /** Counts and compresses one block. */
  function HashOne(f: Compression, s: State, flag: Word, block: seq<Byte>): State {
    var (n0, n1) := Bump(s.c0, s.c1);
    State(f(s.h, block, n0, n1, flag), n0, n1)
  }

  /** Counts and compresses the blocks of `m` from number `i` up to `j`. */
  ghost function Run(f: Compression, s: State, flag: Word, m: seq<Byte>, i: nat, j: nat): State
    requires i <= j && BLOCK * j <= |m|
    decreases j
  {
    if i == j then s else HashOne(f, Run(f, s, flag, m, i, j - 1), flag, BlockAt(m, j - 1))
  }

  /** One round of the loop in `HashBlocks`. */
  method HashBlock(f: Compression, h: array<Word>, c0: uint64, c1: uint64, flag: Word, block: seq<Byte>)
    returns (n0: uint64, n1: uint64)
    requires h.Length == 8
    modifies h
    ensures (n0, n1) == Bump(c0, c1)
    ensures h[..] == f(old(h[..]), block, n0, n1, flag)
  {
    n0, n1 := ((c0 as int + BLOCK) % TWO_64) as uint64, c1;
    if n0 < 128 {
      n1 := ((c1 as int + 1) % TWO_64) as uint64;
    }
    var next := f(h[..], block, n0, n1, flag);
    Copy(h, next);
    assert h[..] == h[..8];
  }

  method HashBlocks(f: Compression, h: array<Word>, c: array<uint64>, flag: Word, blocks: seq<Byte>)
    requires h.Length == 8 && c.Length == 2 && |blocks| % BLOCK == 0
    modifies h, c
    ensures State(h[..], c[0], c[1])
            == Run(f, State(old(h[..]), old(c[0]), old(c[1])), flag, blocks, 0, |blocks| / BLOCK)
  {
    var c0, c1 := c[0], c[1];
    ghost var before := State(h[..], c0, c1);
    var i := 0;
    while i < |blocks|
      invariant 0 <= i <= |blocks| && i % BLOCK == 0
      invariant State(h[..], c0, c1) == Run(f, before, flag, blocks, 0, i / BLOCK)
    {
      assert blocks[i..i + BLOCK] == BlockAt(blocks, i / BLOCK);
      c0, c1 := HashBlock(f, h, c0, c1, flag, blocks[i..i + BLOCK]);
      i := i + BLOCK;
    }
    c[0], c[1] := c0, c1;
  }

  method Copy<T>(a: array<T>, s: seq<T>)
    requires |s| <= a.Length
    modifies a
    ensures a[..|s|] == s && a[|s|..] == old(a[|s|..])
  {
    forall i | 0 <= i < |s| {
      a[i] := s[i];
    }
  }

  /** Hashing in two calls is hashing in one. */
  lemma {:induction false} RunRun(f: Compression, s: State, flag: Word, m: seq<Byte>, i: nat, j: nat, k: nat)
    requires i <= j <= k && BLOCK * k <= |m|
    ensures Run(f, Run(f, s, flag, m, i, j), flag, m, j, k) == Run(f, s, flag, m, i, k)
    decreases k
  {
    if j < k {
      RunRun(f, s, flag, m, i, j, k - 1);
    }
  }

  /** Only the hashed blocks matter, wherever they lie. */
  lemma {:induction false} RunSame(f: Compression, s: State, flag: Word, m: seq<Byte>, k: nat, p: seq<Byte>, i: nat,
                                   j: nat)
    requires i <= j && BLOCK * j <= |p| && BLOCK * (k + j) <= |m|
    requires forall b :: i <= b < j ==> BlockAt(p, b) == BlockAt(m, k + b)
    ensures Run(f, s, flag, p, i, j) == Run(f, s, flag, m, k + i, k + j)
    decreases j
  {
    if i < j {
      RunSame(f, s, flag, m, k, p, i, j - 1);
    }
  }

  /** From the start, `k` blocks lead to the chain value and the counter of RFC 7693. */
  lemma {:induction false} RunIsChain(f: Compression, h: Chain, m: seq<Byte>, k: nat)
    requires BLOCK * k <= |m|
    ensures Run(f, State(h, 0, 0), 0, m, 0, k) == State(ChainAfter(f, h, m, k), Lo(BLOCK * k), Hi(BLOCK * k))
  {
    if k > 0 {
      RunIsChain(f, h, m, k - 1);
      BumpAdds(BLOCK * (k - 1));
    }
  }

  /** `k` blocks of `m` have been hashed, and the rest of `m` is waiting. */
  ghost predicate Holds(f: Compression, h0: Chain, m: seq<Byte>, k: nat, s: State, waiting: seq<Byte>) {
    BLOCK * k <= |m| && s == Run(f, State(h0, 0, 0), 0, m, 0, k) && waiting == m[BLOCK * k..]
  }

  lemma BlockOfPrefix(m: seq<Byte>, p: seq<Byte>, b: nat)
    requires BLOCK * b + BLOCK <= |m|
    ensures BlockAt(m, b) == BlockAt(m + p, b)
  {
  }

  lemma BlockOfSlice(m: seq<Byte>, k: nat, n: nat, b: nat)
    requires b < n && BLOCK * (k + n) <= |m|
    ensures BlockAt(m[BLOCK * k..][..BLOCK * n], b) == BlockAt(m, k + b)
  {
  }

  /** More input. */
  lemma WaitMore(f: Compression, h0: Chain, m: seq<Byte>, k: nat, s: State, waiting: seq<Byte>, p: seq<Byte>)
    requires Holds(f, h0, m, k, s, waiting)
    ensures Holds(f, h0, m + p, k, s, waiting + p)
  {
    forall b | 0 <= b < k
      ensures BlockAt(m, b) == BlockAt(m + p, 0 + b)
    {
      BlockOfPrefix(m, p, b);
    }
    RunSame(f, State(h0, 0, 0), 0, m + p, 0, m, 0, k);
    assert waiting + p == (m + p)[BLOCK * k..];
  }

  /** Hashing the first `n` waiting blocks. */
  lemma HashWaiting(f: Compression, h0: Chain, m: seq<Byte>, k: nat, s: State, waiting: seq<Byte>, n: nat)
    requires Holds(f, h0, m, k, s, waiting) && BLOCK * n <= |waiting|
    ensures Holds(f, h0, m, k + n, Run(f, s, 0, waiting[..BLOCK * n], 0, n), waiting[BLOCK * n..])
  {
    forall b | 0 <= b < n
      ensures BlockAt(waiting[..BLOCK * n], b) == BlockAt(m, k + b)
    {
      BlockOfSlice(m, k, n, b);
    }
    RunSame(f, s, 0, m, k, waiting[..BLOCK * n], 0, n);
    RunRun(f, State(h0, 0, 0), 0, m, 0, k, k + n);
  }

  /** A non-empty buffer of at most one block holds exactly the last block. */
  lemma LastBlock(n: nat, k: nat)
    requires BLOCK * k < n <= BLOCK * k + BLOCK
    ensures BlocksBeforeLast(n) == k
  {
  }

  /** Compressing the padded buffer with the counter wound back is the last step of the hash. */
  lemma LastStep(f: Compression, h0: Chain, m: seq<Byte>, s: State, waiting: seq<Byte>)
    requires Holds(f, h0, m, BlocksBeforeLast(|m|), s, waiting)
    ensures |waiting| <= BLOCK
    ensures var b := WindBack(s.c0, s.c1, BLOCK - |waiting|);
            HashOne(f, State(s.h, b.0, b.1), FINAL, waiting + Zeros(BLOCK - |waiting|)).h == LastChain(f, h0, m)
  {
    var k := BlocksBeforeLast(|m|);
    RunIsChain(f, h0, m, k);
    FinalCounter(k, |waiting|);
  }

  lemma OneBlock(f: Compression, s: State, flag: Word, block: seq<Byte>)
    requires |block| == BLOCK
    ensures Run(f, s, flag, block, 0, 1) == HashOne(f, s, flag, block)
  {
    assert BlockAt(block, 0) == block;
  }

  /** Hashes the last block. */
  method HashLast(f: Compression, h: array<Word>, c: array<uint64>, last: seq<Byte>)
    requires h.Length == 8 && c.Length == 2 && |last| == BLOCK
    modifies h, c
    ensures h[..] == HashOne(f, State(old(h[..]), old(c[0]), old(c[1])), FINAL, last).h
  {
    OneBlock(f, State(h[..], c[0], c[1]), FINAL, last);
    HashBlocks(f, h, c, FINAL, last);
  }

  lemma Regrouped<T>(a: seq<T>, b: seq<T>, c: seq<T>)
    ensures a + (b + c) == a + b + c
  {
  }

  class Digest {
    const f: Compression
    const size: nat
    const key: seq<Byte>
    const keyLen: nat
    const h: array<Word>
    const c: array<uint64>
    const block: array<Byte>
    var offset: nat

    /** The chain value this digest starts from. */
    ghost const start: Chain

    /** The message written since the last reset. */
    ghost var message: seq<Byte>

    ghost const Repr: set<object> := {this, h, c, block}

    ghost predicate Keyed() {
      && 1 <= size <= SIZE && keyLen <= SIZE && |key| == BLOCK && key[keyLen..] == Zeros(BLOCK - keyLen)
      && start == Initial(size, keyLen)
    }

    ghost predicate Shape()
      reads this
    {
      && keyLen <= SIZE && |key| == BLOCK
      && h.Length == 8 && c.Length == 2 && block.Length == BLOCK && offset <= BLOCK
      && h as object != c && h as object != block && c as object != block
    }

    ghost function Input(): seq<Byte>
      requires keyLen <= SIZE && |key| == BLOCK
      reads this`message
    {
      KeyBlock(key[..keyLen]) + message
    }

    /** `k` blocks of `m` have been hashed and `waiting` is the rest. */
    ghost predicate At(m: seq<Byte>, k: nat, waiting: seq<Byte>)
      requires h.Length == 8 && c.Length == 2
      reads h, c
    {
      Holds(f, start, m, k, State(h[..], c[0], c[1]), waiting)
    }

    /** Every block of key and message but the last has been hashed, and the last one is buffered. */
    ghost predicate Valid()
      reads Repr
    {
      Keyed() && Shape() && At(Input(), BlocksBeforeLast(|Input()|), block[..offset])
    }

    constructor (f: Compression, hashSize: nat, key: seq<Byte>)
      requires 1 <= hashSize <= SIZE && |key| <= SIZE
      ensures Valid() && fresh(Repr)
      ensures this.f == f && size == hashSize && this.key[..keyLen] == key && message == []
    {
      this.f, size, keyLen := f, hashSize, |key|;
      this.key := key + Zeros(BLOCK - |key|);
      h := new Word[8];
      c := new uint64[2];
      block := new Byte[BLOCK];
      offset := 0;
      start := Initial(hashSize, |key|);
      message := [];
      new;
      Reset();
    }

    /** `newDigest`: the two size checks in their order. */
    static method New(f: Compression, hashSize: int, key: seq<Byte>) returns (r: Result<Digest, SizeError>)
      ensures r == Err(HashSize) <==> hashSize < 1 || hashSize > SIZE
      ensures r == Err(KeySize) <==> 1 <= hashSize <= SIZE && |key| > SIZE
      ensures r.Ok? ==> r.value.Valid() && fresh(r.value.Repr) && r.value.message == []
                        && r.value.f == f && r.value.size == hashSize && r.value.key[..r.value.keyLen] == key
    {
      if hashSize < 1 || hashSize > SIZE {
        return Err(HashSize);
      }
      if |key| > SIZE {
        return Err(KeySize);
      }
      var d := new Digest(f, hashSize, key);
      r := Ok(d);
    }

    /** Sets the chain value to the IV with the parameter word mixed in. */
    method StartChain()
      requires Keyed() && Shape()
      modifies h
      ensures h[..] == start
    {
      Copy(h, IV);
      h[0] := FirstWord(h[0], size as Word, keyLen as Word);
    }

    /** Forgets the message: what follows is a digest of new input under the same key. */
    method Reset()
      requires Keyed() && Shape()
      modifies this`offset, this`message, h, c, block
      ensures Valid() && message == []
    {
      StartChain();
      offset, c[0], c[1] := 0, 0, 0;
      message := [];
      if keyLen > 0 {
        Copy(block, key);
        offset := BLOCK;
        assert key[..keyLen] + key[keyLen..] == key;
      }
    }

    /** Hashes the first `n` blocks of what is waiting. */
    method Advance(blocks: seq<Byte>, ghost m: seq<Byte>, ghost k: nat, ghost n: nat, ghost waiting: seq<Byte>)
      requires Shape() && At(m, k, waiting)
      requires BLOCK * n <= |waiting| && blocks == waiting[..BLOCK * n]
      modifies h, c
      ensures At(m, k + n, waiting[BLOCK * n..])
    {
      HashWaiting(f, start, m, k, State(h[..], c[0], c[1]), waiting, n);
      HashBlocks(f, h, c, 0, blocks);
    }

    /** Completes the buffered block and hashes it. */
    method FillBlock(p: seq<Byte>, ghost m: seq<Byte>, ghost k: nat, ghost waiting: seq<Byte>)
      requires Shape() && At(m, k, waiting)
      requires offset + |p| == BLOCK && block[..offset] + p <= waiting
      modifies this`offset, h, c, block
      ensures offset == 0 && At(m, k + 1, waiting[BLOCK..])
    {
      CopyAt(block, offset, p);
      assert block[..] == block[..BLOCK] == waiting[..BLOCK * 1];
      Advance(block[..], m, k, 1, waiting);
      offset := 0;
    }

    /** Appends to the buffered block as much as fits. */
    method Buffer(p: seq<Byte>, ghost m: seq<Byte>, ghost k: nat)
      requires Keyed() && Shape() && 0 < offset + |p| <= BLOCK
      requires At(m, k, block[..offset] + p) && m == Input()
      modifies this`offset, block
      ensures Valid()
    {
      ghost var waiting := block[..offset] + p;
      CopyAt(block, offset, p);
      offset := offset + |p|;
      assert block[..offset] == waiting;
      LastBlock(|m|, k);
    }

    /** What `Write` has to deal with: the buffered bytes and the new ones. */
    lemma Waiting(p: seq<Byte>)
      requires Valid()
      ensures At(KeyBlock(key[..keyLen]) + (message + p), BlocksBeforeLast(|Input()|), block[..offset] + p)
      ensures offset == 0 ==> block[..offset] + p == p && Input() == []
    {
      WaitMore(f, start, Input(), BlocksBeforeLast(|Input()|), State(h[..], c[0], c[1]), block[..offset], p);
      Regrouped(KeyBlock(key[..keyLen]), message, p);
    }

    /** Appends to the message, however the input was cut up before. */
    method Write(p: seq<Byte>) returns (n: nat)
      requires Valid()
      modifies this`offset, this`message, h, c, block
      ensures Valid() && message == old(message) + p && n == |p|
    {
      n := |p|;
      ghost var k := BlocksBeforeLast(|Input()|);
      Waiting(p);
      message := message + p;
      if offset > 0 {
        WriteBehind(p, Input(), k);
      } else {
        WriteRest(p, Input(), k);
      }
    }

    /** The part of `Write` for a partly filled block. */
    method WriteBehind(p: seq<Byte>, ghost m: seq<Byte>, ghost k: nat)
      requires Keyed() && Shape() && At(m, k, block[..offset] + p) && m == Input() && offset > 0
      modifies this`offset, h, c, block
      ensures Valid()
    {
      var remaining := BLOCK - offset;
      if |p| <= remaining {
        Buffer(p, m, k);
        return;
      }
      ghost var waiting := block[..offset] + p;
      FillBlock(p[..remaining], m, k, waiting);
      assert p[remaining..] == waiting[BLOCK..];
      WriteRest(p[remaining..], m, k + 1);
    }

    /** The part of `Write` after a partly filled block has been dealt with. */
    method WriteRest(p: seq<Byte>, ghost m: seq<Byte>, ghost k: nat)
      requires Keyed() && Shape() && At(m, k, p) && m == Input() && offset == 0
      requires p == [] ==> m == []
      modifies this`offset, h, c, block
      ensures Valid()
    {
      var rest := p;
      ghost var done := k;
      var length := |rest|;
      if length > BLOCK {
        var nn := length - length % BLOCK;
        ghost var n := length / BLOCK;
        if length == nn {
          nn := nn - BLOCK;
          n := n - 1;
        }
        assert nn == BLOCK * n && 0 < |rest| - nn <= BLOCK;
        Advance(rest[..nn], m, k, n, rest);
        rest := rest[nn..];
        done := k + n;
      }
      if |rest| > 0 {
        assert block[..offset] + rest == rest;
        Buffer(rest, m, done);
      }
    }

    /** The digest of what was written so far; writing may continue afterwards. */
    method Sum(sum: seq<Byte>) returns (out: seq<Byte>)
      requires Valid()
      ensures out == sum + Hash(f, size, key[..keyLen], message)
    {
      var all := Finalize();
      out := sum + all[..size];
    }

    method Finalize() returns (out: seq<Byte>)
      requires Valid()
      ensures out == Serialize(LastChain(f, start, Input()))
    {
      var last := PaddedBlock();
      var count := new uint64[2];
      WindBackTo(count, BLOCK - offset);
      LastStep(f, start, Input(), State(h[..], c[0], c[1]), block[..offset]);
      var chain := new Word[8](i => 0);
      Copy(chain, h[..]);
      assert chain[..] == chain[..8] == h[..];
      HashLast(f, chain, count, last[..]);
      out := Serialize(chain[..]);
    }

    /** A copy of the buffered bytes, filled up with zeros. */
    method PaddedBlock() returns (last: array<Byte>)
      requires Shape()
      ensures fresh(last) && last[..] == block[..offset] + Zeros(BLOCK - offset)
    {
      last := new Byte[BLOCK](i => 0);
      Copy(last, block[..offset]);
    }

    /** A copy of the counter, `n` bytes back. */
    method WindBackTo(count: array<uint64>, n: nat)
      requires Shape() && count.Length == 2 && count != c && n <= BLOCK
      modifies count
      ensures (count[0], count[1]) == WindBack(c[0], c[1], n)
    {
      count[0], count[1] := c[0], c[1];
      if count[0] as int < n {
        count[1] := ((count[1] as int - 1) % TWO_64) as uint64;
      }
      count[0] := ((count[0] as int - n) % TWO_64) as uint64;
    }
  }

  method CopyAt<T>(a: array<T>, at: nat, s: seq<T>)
    requires at + |s| <= a.Length
    modifies a
    ensures a[..at] == old(a[..at]) && a[at..at + |s|] == s
    ensures a[..at + |s|] == old(a[..at]) + s
  {
    forall i | 0 <= i < |s| {
      a[at + i] := s[i];
    }
  }

  ghost function Flatten(chunks: seq<seq<Byte>>): seq<Byte> {
    if chunks == [] then [] else Flatten(chunks[..|chunks| - 1]) + chunks[|chunks| - 1]
  }

  /** Streaming equals one-shot: however a message is cut into writes, the digest is
      the hash of the whole message. */
  method DigestOfChunks(f: Compression, hashSize: nat, key: seq<Byte>, chunks: seq<seq<Byte>>) returns (out: seq<Byte>)
    requires 1 <= hashSize <= SIZE && |key| <= SIZE
    ensures out == Hash(f, hashSize, key, Flatten(chunks))
  {
    var d := new Digest(f, hashSize, key);
    for i := 0 to |chunks|
      invariant d.Valid() && fresh(d.Repr)
      invariant d.message == Flatten(chunks[..i])
    {
      var n := d.Write(chunks[i]);
      assert chunks[..i + 1][..i] == chunks[..i];
    }
    out := d.Sum([]);
    assert chunks[..|chunks|] == chunks;
    assert out == Hash(f, hashSize, key, Flatten(chunks));
  }
}
