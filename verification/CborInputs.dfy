/**
 What the CBOR decoder makes of input that is no complete encoding: where it panics there is a
 cause in the input, and an encoding that is cut off is refused.
 */
module CborInputs {
  import opened Octets
  import opened Prelude
  import opened Cbor
  import opened CborRoundTrip
  import opened CborValues

  // ----- Every panic has its cause -----

  /** What can be wrong at a place in the input: the head of a list that is too long, or a key
      that Go cannot use with a value behind it. */
  datatype Cause = LongList(w: nat, n: nat) | BadKey(key: Item, value: Item)

  ghost predicate StandsAt(data: seq<Octet>, p: nat, maxCap: nat, cause: Cause) {
    match cause
    case LongList(w, n) => Fits(w, n) && n > maxCap && Occurs(data, p, Head(4, w, n))
    case BadKey(k, v) =>
      && WellFormed(k) && WellFormed(v) && !KeyKind(k)
      && Occurs(data, p, Encode(k)) && Occurs(data, p + |Encode(k)|, Encode(v))
  }

  /** On any input the decoder panics only if such a cause stands somewhere from `off` on. */
  lemma {:induction false} PanicHasCause(data: seq<Octet>, off: nat, maxCap: nat) returns (p: nat, cause: Cause)
    requires Decode(data, off, maxCap) == Panic
    ensures p >= off && StandsAt(data, p, maxCap, cause)
    decreases Left(data, off), 0, 0
  {
    var (n, next) := Argument(data, off + 1, data[off] % 32).value;
    if data[off] / 32 == 4 && n > maxCap {
      var w := HeadRead(data, off, n, next);
      p, cause := off, LongList(w, n);
    } else {
      p, cause := ValuePanicHasCause(data, data[off] / 32, data[off] % 32, n, next, maxCap);
    }
  }

  lemma {:induction false} ValuePanicHasCause(data: seq<Octet>, major: nat, add: nat, n: nat, off: nat, maxCap: nat)
    returns (p: nat, cause: Cause)
    requires DecodeValue(data, major, add, n, off, maxCap) == Panic && (major == 4 ==> n <= maxCap)
    ensures p >= off && StandsAt(data, p, maxCap, cause)
    decreases Left(data, off), 3, 0
  {
    match major
    case 4 => p, cause := ItemsPanicHasCause(data, off, n, maxCap, []);
    case 5 => p, cause := PairsPanicHasCause(data, off, n, maxCap, map[]);
    case _ => p, cause := PanicHasCause(data, off, maxCap);
  }

  lemma {:induction false} ItemsPanicHasCause(data: seq<Octet>, off: nat, n: nat, maxCap: nat, acc: seq<Value>)
    returns (p: nat, cause: Cause)
    requires DecodeItems(data, off, n, maxCap, acc) == Panic
    ensures p >= off && StandsAt(data, p, maxCap, cause)
    decreases Left(data, off), 2, n
  {
    match Decode(data, off, maxCap)
    case Done(v, next) => p, cause := ItemsPanicHasCause(data, next, n - 1, maxCap, acc + [v]);
    case Panic => p, cause := PanicHasCause(data, off, maxCap);
  }

  lemma {:induction false} PairPanicHasCause(data: seq<Octet>, off: nat, maxCap: nat) returns (p: nat, cause: Cause)
    requires DecodePair(data, off, maxCap) == Panic
    ensures p >= off && StandsAt(data, p, maxCap, cause)
    decreases Left(data, off), 1, 0
  {
    match Decode(data, off, maxCap)
    case Done(k, middle) => p, cause := PanicHasCause(data, middle, maxCap);
    case Panic => p, cause := PanicHasCause(data, off, maxCap);
  }

  lemma {:induction false} PairsPanicHasCause(data: seq<Octet>, off: nat, n: nat, maxCap: nat, acc: map<Value, Value>)
    returns (p: nat, cause: Cause)
    requires DecodePairs(data, off, n, maxCap, acc) == Panic
    ensures p >= off && StandsAt(data, p, maxCap, cause)
    decreases Left(data, off), 2, n
  {
    match DecodePair(data, off, maxCap)
    case Panic => p, cause := PairPanicHasCause(data, off, maxCap);
    case Done((k, v), next) =>
      if k.Hashable() {
        p, cause := PairsPanicHasCause(data, next, n - 1, maxCap, acc[k := v]);
      } else {
        var key, value := DecodedPairIsEncoded(data, off, maxCap);
        PanicsIff(key, maxCap);
        p, cause := off, BadKey(key, value);
      }
  }

  // ----- What is cut off is refused -----

  /** The input ends within `s`, of which it has the beginning at `off`. */
  ghost predicate EndsIn(data: seq<Octet>, off: nat, s: seq<Octet>) {
    off <= |data| < off + |s| && forall i :: 0 <= i < |data| - off ==> data[off + i] == s[i]
  }

  lemma EndsInConcat(data: seq<Octet>, off: nat, a: seq<Octet>, b: seq<Octet>)
    requires EndsIn(data, off, a + b)
    ensures EndsIn(data, off, a) || (Occurs(data, off, a) && EndsIn(data, off + |a|, b))
  {
    assert forall i :: 0 <= i < |a| ==> (a + b)[i] == a[i];
    if |data| >= off + |a| {
      forall i | 0 <= i < |data| - off - |a|
        ensures data[off + |a| + i] == b[i]
      {
        assert data[off + (|a| + i)] == (a + b)[|a| + i];
      }
    }
  }

  /** Of three parts the input ends in the first, the second or the third. */
  lemma EndsInThree(data: seq<Octet>, off: nat, a: seq<Octet>, b: seq<Octet>, c: seq<Octet>)
    requires EndsIn(data, off, a + (b + c))
    ensures || EndsIn(data, off, a)
            || (Occurs(data, off, a) && EndsIn(data, off + |a|, b))
            || (Occurs(data, off, a) && Occurs(data, off + |a|, b) && EndsIn(data, off + |a| + |b|, c))
  {
    EndsInConcat(data, off, a, b + c);
    if !EndsIn(data, off, a) {
      EndsInConcat(data, off + |a|, b, c);
    }
  }

  lemma HeadCutOff(data: seq<Octet>, off: nat, major: nat, w: nat, n: nat, maxCap: nat)
    requires major < 8 && Fits(w, n) && EndsIn(data, off, Head(major, w, n))
    ensures Decode(data, off, maxCap) == Fail
  {
    if off < |data| {
      assert data[off + 0] == Head(major, w, n)[0] == 32 * major + Additional(w, n);
    }
  }

  /** An encoding of which the end is missing is no error but a failure, if it would not make the
      decoder panic when complete. */
  lemma {:induction false} CutOffFails(data: seq<Octet>, off: nat, item: Item, maxCap: nat)
    requires WellFormed(item) && Survives(item, maxCap) && EndsIn(data, off, Encode(item))
    ensures Decode(data, off, maxCap) == Fail
    decreases item, 2
  {
    var head := Head(Major(item), Width(item), Arg(item));
    EndsInConcat(data, off, head, Payload(item));
    if EndsIn(data, off, head) {
      HeadCutOff(data, off, Major(item), Width(item), Arg(item), maxCap);
    } else {
      ReadHead(data, off, Major(item), Width(item), Arg(item));
      PayloadCutOff(data, off + |head|, item, maxCap);
    }
  }

  lemma {:induction false} PayloadCutOff(data: seq<Octet>, off: nat, item: Item, maxCap: nat)
    requires WellFormed(item) && Survives(item, maxCap) && EndsIn(data, off, Payload(item))
    ensures DecodeValue(data, Major(item), Additional(Width(item), Arg(item)), Arg(item), off, maxCap) == Fail
    decreases item, 0
  {
    match item
    case List(_, items) => ItemsCutOff(data, off, items, maxCap, []);
    case Dictionary(_, pairs) => PairsCutOff(data, off, pairs, maxCap, map[]);
    case Tagged(_, _, inner) => CutOffFails(data, off, inner, maxCap);
    case _ =>
  }

  lemma {:induction false} ItemsCutOff(data: seq<Octet>, off: nat, items: Items, maxCap: nat, acc: seq<Value>)
    requires WellFormedItems(items) && ItemsSurvive(items, maxCap) && EndsIn(data, off, EncodeItems(items))
    ensures DecodeItems(data, off, Count(items), maxCap, acc) == Fail
    decreases items, 1
  {
    var first := items.first;
    EndsInConcat(data, off, Encode(first), EncodeItems(items.others));
    if EndsIn(data, off, Encode(first)) {
      CutOffFails(data, off, first, maxCap);
    } else {
      DecodeEncoded(data, off, first, maxCap);
      PanicsIff(first, maxCap);
      ItemsCutOff(data, off + |Encode(first)|, items.others, maxCap, acc + [GoValue(first, maxCap).value]);
    }
  }

  lemma {:induction false} PairCutOff(data: seq<Octet>, off: nat, pairs: Pairs, maxCap: nat, acc: map<Value, Value>)
    requires pairs.APair? && WellFormedPairs(pairs) && PairsSurvive(pairs, maxCap)
    requires EndsIn(data, off, Encode(pairs.key))
             || (Occurs(data, off, Encode(pairs.key)) && EndsIn(data, off + |Encode(pairs.key)|, Encode(pairs.value)))
    ensures DecodePairs(data, off, CountPairs(pairs), maxCap, acc) == Fail
    decreases pairs, 0
  {
    if EndsIn(data, off, Encode(pairs.key)) {
      CutOffFails(data, off, pairs.key, maxCap);
    } else {
      DecodeEncoded(data, off, pairs.key, maxCap);
      PanicsIff(pairs.key, maxCap);
      CutOffFails(data, off + |Encode(pairs.key)|, pairs.value, maxCap);
    }
  }

  /** A complete first pair is decoded. */
  lemma PairIsRead(data: seq<Octet>, off: nat, pairs: Pairs, maxCap: nat, acc: map<Value, Value>)
    returns (acc': map<Value, Value>)
    requires pairs.APair? && WellFormedPairs(pairs) && PairsSurvive(pairs, maxCap)
    requires Occurs(data, off, Encode(pairs.key)) && Occurs(data, off + |Encode(pairs.key)|, Encode(pairs.value))
    ensures DecodePairs(data, off, CountPairs(pairs), maxCap, acc)
            == DecodePairs(data, off + |Encode(pairs.key)| + |Encode(pairs.value)|, CountPairs(pairs.others), maxCap,
                           acc')
  {
    var next := off + |Encode(pairs.key)| + |Encode(pairs.value)|;
    DecodeKeyAndValue(data, off, pairs, maxCap);
    PanicsIff(pairs.key, maxCap);
    PanicsIff(pairs.value, maxCap);
    FirstPairStep(data, off, next, pairs, maxCap, acc);
    acc' := acc[GoValue(pairs.key, maxCap).value := GoValue(pairs.value, maxCap).value];
  }

  lemma {:induction false} PairsCutOff(data: seq<Octet>, off: nat, pairs: Pairs, maxCap: nat, acc: map<Value, Value>)
    requires WellFormedPairs(pairs) && PairsSurvive(pairs, maxCap) && EndsIn(data, off, EncodePairs(pairs))
    ensures DecodePairs(data, off, CountPairs(pairs), maxCap, acc) == Fail
    decreases pairs, 1
  {
    match pairs
    case NoPair =>
    case APair(k, v, others) =>
      EndsInThree(data, off, Encode(k), Encode(v), EncodePairs(others));
      if EndsIn(data, off, Encode(k)) || EndsIn(data, off + |Encode(k)|, Encode(v)) {
        PairCutOff(data, off, pairs, maxCap, acc);
      } else {
        var acc' := PairIsRead(data, off, pairs, maxCap, acc);
        PairsCutOff(data, off + |Encode(k)| + |Encode(v)|, others, maxCap, acc');
      }
  }

  /** So every proper prefix of an encoding is refused, and the empty input. */
  lemma PrefixFails(before: seq<Octet>, item: Item, n: nat, maxCap: nat)
    requires WellFormed(item) && Survives(item, maxCap) && n < |Encode(item)|
    ensures Decode(before + Encode(item)[..n], |before|, maxCap) == Fail
  {
    var data := before + Encode(item)[..n];
    forall i | 0 <= i < n
      ensures data[|before| + i] == Encode(item)[i]
    {
    }
    CutOffFails(data, |before|, item, maxCap);
  }

  // ----- Examples of appendix A of RFC 8949 -----

  lemma TwoOctets(data: seq<Octet>, off: nat)
    requires off + 2 <= |data|
    ensures FromBigEndian(data, off, 2) == 256 * (data[off] as int) + data[off + 1]
  {
    assert FromBigEndian(data, off, 1) == data[off];
  }

  lemma NumberExamples(c: nat)
    ensures Decode([0x17], 0, c) == Done(Int(23), 1) && Decode([0x18, 0x64], 0, c) == Done(Int(100), 2)
    ensures Decode([0x20], 0, c) == Done(Int(-1), 1)
  {
  }

  lemma ThousandExamples(c: nat)
    ensures Decode([0x19, 0x03, 0xe8], 0, c) == Done(Int(1000), 3)
    ensures Decode([0x39, 0x03, 0xe7], 0, c) == Done(Int(-1000), 3)
  {
    TwoOctets([0x19, 0x03, 0xe8], 1);
    TwoOctets([0x39, 0x03, 0xe7], 1);
  }

  lemma MillionExample(c: nat)
    ensures Decode([0x1a, 0x00, 0x0f, 0x42, 0x40], 0, c) == Done(Int(1000000), 5)
  {
    var data: seq<Octet> := [0x1a, 0x00, 0x0f, 0x42, 0x40];
    TwoOctets(data, 1);
    assert FromBigEndian(data, 1, 3) == 0x0f42;
    assert FromBigEndian(data, 1, 4) == 1000000;
  }

  lemma StringExamples(c: nat)
    ensures Decode([0x44, 0x01, 0x02, 0x03, 0x04], 0, c) == Done(Bytes([1, 2, 3, 4]), 5)
    ensures Decode([0x62, 0x22, 0x5c], 0, c) == Done(Text([0x22, 0x5c]), 3)
  {
    var b, t: seq<Octet> := [0x44, 0x01, 0x02, 0x03, 0x04], [0x62, 0x22, 0x5c];
    assert b[1..5] == [1, 2, 3, 4];
    assert t[1..3] == [0x22, 0x5c];
  }

  lemma ListExample(c: nat)
    requires c >= 2
    ensures Decode([0x82, 0x01, 0x02], 0, c) == Done(Array([Int(1), Int(2)]), 3)
  {
    var data: seq<Octet> := [0x82, 0x01, 0x02];
    var none, one: seq<Value> := [], [Int(1)];
    assert none + [Int(1)] == one && one + [Int(2)] == [Int(1), Int(2)];
    assert Decode(data, 1, c) == Done(Int(1), 2) && Decode(data, 2, c) == Done(Int(2), 3);
    assert DecodeItems(data, 2, 1, c, one) == DecodeItems(data, 3, 0, c, [Int(1), Int(2)]);
    assert DecodeItems(data, 1, 2, c, none) == DecodeItems(data, 2, 1, c, one);
  }
}
