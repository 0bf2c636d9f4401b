/** Octets, numbers in network byte order, and what stands where in an input. */
module Octets {

  /** A byte as a number. */
  type Octet = n: int | 0 <= n < 256

  /** The number of values of `w` bytes. */
  function Limit(w: nat): nat {
    if w == 0 then 1 else 256 * Limit(w - 1)
  }

  /** `n` in `w` bytes, most significant first. */
  function BigEndian(n: nat, w: nat): (b: seq<Octet>)
    ensures |b| == w
  {
    if w == 0 then [] else BigEndian(n / 256, w - 1) + [n % 256]
  }

  /** `w` bytes from `off` on, most significant first. */
  function FromBigEndian(data: seq<Octet>, off: nat, w: nat): nat
    requires off + w <= |data|
  {
    if w == 0 then 0 else 256 * FromBigEndian(data, off, w - 1) + data[off + w - 1]
  }

  /** The first octet weighs most. */
  lemma {:induction false} FirstWeighsMost(data: seq<Octet>, off: nat, w: nat)
    requires w > 0 && off + w <= |data|
    ensures FromBigEndian(data, off, w) == data[off] * Limit(w - 1) + FromBigEndian(data, off + 1, w - 1)
  {
    if w > 1 {
      FirstWeighsMost(data, off, w - 1);
      var d, l, rest := data[off], Limit(w - 2), FromBigEndian(data, off + 1, w - 2);
      assert 256 * (d * l + rest) == d * (256 * l) + 256 * rest;
    }
  }

  // ----- Bytes that occur in an input -----

  ghost predicate Occurs(data: seq<Octet>, off: nat, s: seq<Octet>) {
    off + |s| <= |data| && forall i :: 0 <= i < |s| ==> data[off + i] == s[i]
  }

  lemma OccursConcat(data: seq<Octet>, off: nat, a: seq<Octet>, b: seq<Octet>)
    ensures Occurs(data, off, a + b) <==> Occurs(data, off, a) && Occurs(data, off + |a|, b)
  {
    if Occurs(data, off, a + b) {
      assert forall i :: 0 <= i < |a| ==> (a + b)[i] == a[i];
      forall i | 0 <= i < |b|
        ensures data[off + |a| + i] == b[i]
      {
        assert (a + b)[|a| + i] == b[i];
      }
    }
    if Occurs(data, off, a) && Occurs(data, off + |a|, b) {
      forall i | 0 <= i < |a + b|
        ensures data[off + i] == (a + b)[i]
      {
        if i >= |a| {
          assert data[off + |a| + (i - |a|)] == b[i - |a|];
        }
      }
    }
  }

  lemma {:induction false} ReadBigEndian(data: seq<Octet>, off: nat, w: nat, n: nat)
    requires n < Limit(w) && Occurs(data, off, BigEndian(n, w))
    ensures FromBigEndian(data, off, w) == n
  {
    if w > 0 {
      OccursConcat(data, off, BigEndian(n / 256, w - 1), [n % 256]);
      ReadBigEndian(data, off, w - 1, n / 256);
      assert data[off + (w - 1) + 0] == [n % 256][0];
    }
  }

  lemma {:induction false} BigEndianRead(data: seq<Octet>, off: nat, w: nat)
    requires off + w <= |data|
    ensures FromBigEndian(data, off, w) < Limit(w)
    ensures Occurs(data, off, BigEndian(FromBigEndian(data, off, w), w))
  {
    if w > 0 {
      BigEndianRead(data, off, w - 1);
      var high, low := FromBigEndian(data, off, w - 1), data[off + w - 1];
      assert (256 * high + low) / 256 == high && (256 * high + low) % 256 == low;
      OccursConcat(data, off, BigEndian(high, w - 1), [low]);
    }
  }
}
