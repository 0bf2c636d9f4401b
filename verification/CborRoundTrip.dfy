/**
 The CBOR decoder and the encoding of RFC 8949 undo each other: decoding an encoding gives
 the value of the item, and whatever is decoded was an encoding.
 */
module CborRoundTrip {
  import opened Octets
  import opened Prelude
  import opened Cbor

  lemma ReadHead(data: seq<Octet>, off: nat, major: nat, w: nat, n: nat)
    requires major < 8 && Fits(w, n) && Occurs(data, off, Head(major, w, n))
    ensures off < |data| && data[off] / 32 == major && data[off] % 32 == Additional(w, n)
    ensures Argument(data, off + 1, data[off] % 32) == Some((n, off + 1 + w))
  {
    OccursConcat(data, off, [32 * major + Additional(w, n)], BigEndian(n, w));
    assert data[off + 0] == [32 * major + Additional(w, n)][0];
    if w > 0 {
      ReadBigEndian(data, off + 1, w, n);
    }
  }

  lemma HeadRead(data: seq<Octet>, off: nat, n: nat, next: nat) returns (w: nat)
    requires off < |data| && Argument(data, off + 1, data[off] % 32) == Some((n, next))
    ensures Fits(w, n) && next == off + 1 + w && Additional(w, n) == data[off] % 32
    ensures Occurs(data, off, Head(data[off] / 32, w, n))
  {
    var add := data[off] % 32;
    w := 0;
    if add >= 24 {
      w := ArgumentWidth(add).value;
      BigEndianRead(data, off + 1, w);
    }
    assert [32 * (data[off] / 32) + Additional(w, n)] == [data[off]];
    OccursConcat(data, off, [data[off]], BigEndian(n, w));
  }

  // ----- Decoding undoes encoding -----

  ghost function Expected<T>(v: Option<T>, next: nat): Outcome<T> {
    match v case Some(x) => Done(x, next) case None => Panic
  }

  lemma StringOccurs(data: seq<Octet>, off: nat, b: seq<Octet>)
    requires Occurs(data, off, b)
    ensures data[off..off + |b|] == b
  {
  }

  lemma HeadOccurs(data: seq<Octet>, off: nat, item: Item)
    requires WellFormed(item) && Occurs(data, off, Encode(item))
    ensures off < |data| && data[off] / 32 == Major(item) && data[off] % 32 == Additional(Width(item), Arg(item))
    ensures Argument(data, off + 1, data[off] % 32) == Some((Arg(item), off + 1 + Width(item)))
    ensures Occurs(data, off + 1 + Width(item), Payload(item)) && |Encode(item)| == 1 + Width(item) + |Payload(item)|
  {
    OccursConcat(data, off, Head(Major(item), Width(item), Arg(item)), Payload(item));
    ReadHead(data, off, Major(item), Width(item), Arg(item));
  }

  /** Wherever the encoding of an item stands, decoding it gives the value of the item and
      the offset behind the encoding. */
  lemma {:induction false} DecodeEncoded(data: seq<Octet>, off: nat, item: Item, maxCap: nat)
    requires WellFormed(item) && Occurs(data, off, Encode(item))
    ensures Decode(data, off, maxCap) == Expected(GoValue(item, maxCap), off + |Encode(item)|)
    decreases item, 2
  {
    HeadOccurs(data, off, item);
    if item.List? || item.Dictionary? || item.Tagged? {
      DecodeNested(data, off + 1 + Width(item), item, maxCap);
    } else {
      DecodeFlat(data, off + 1 + Width(item), item, maxCap);
    }
  }

  lemma DecodeFlat(data: seq<Octet>, off: nat, item: Item, maxCap: nat)
    requires WellFormed(item) && Occurs(data, off, Payload(item))
    requires !item.List? && !item.Dictionary? && !item.Tagged?
    ensures DecodeValue(data, Major(item), Additional(Width(item), Arg(item)), Arg(item), off, maxCap)
            == Expected(GoValue(item, maxCap), off + |Payload(item)|)
  {
    if item.ByteString? || item.TextString? {
      StringOccurs(data, off, item.b);
    }
  }

  lemma {:induction false} DecodeNested(data: seq<Octet>, off: nat, item: Item, maxCap: nat)
    requires WellFormed(item) && Occurs(data, off, Payload(item))
    requires item.List? || item.Dictionary? || item.Tagged?
    ensures DecodeValue(data, Major(item), Additional(Width(item), Arg(item)), Arg(item), off, maxCap)
            == Expected(GoValue(item, maxCap), off + |Payload(item)|)
    decreases item, 0
  {
    match item
    case List(_, items) => DecodeEncodedItems(data, off, items, maxCap, []);
    case Dictionary(_, pairs) => DecodeEncodedPairs(data, off, pairs, maxCap, map[]);
    case Tagged(_, _, inner) => DecodeEncoded(data, off, inner, maxCap);
  }

  lemma {:induction false} DecodeEncodedItems(data: seq<Octet>, off: nat, items: Items, maxCap: nat, acc: seq<Value>)
    requires WellFormedItems(items) && Occurs(data, off, EncodeItems(items))
    ensures DecodeItems(data, off, Count(items), maxCap, acc)
            == Expected(GoValues(items, maxCap, acc), off + |EncodeItems(items)|)
    decreases items, 1
  {
    match items
    case NoItem =>
    case AnItem(first, others) =>
      OccursConcat(data, off, Encode(first), EncodeItems(others));
      DecodeEncoded(data, off, first, maxCap);
      var v := GoValue(first, maxCap);
      if v.Some? {
        DecodeEncodedItems(data, off + |Encode(first)|, others, maxCap, acc + [v.value]);
      }
  }

  /** Where pairs are encoded, there is a key, a value and more pairs. */
  lemma PairOccurs(data: seq<Octet>, off: nat, k: Item, v: Item, others: Pairs)
    requires WellFormed(k) && WellFormed(v) && WellFormedPairs(others)
    ensures var all, next := EncodePairs(APair(k, v, others)), off + |Encode(k)| + |Encode(v)|;
            && (Occurs(data, off, all) <==>
                  && Occurs(data, off, Encode(k)) && Occurs(data, off + |Encode(k)|, Encode(v))
                  && Occurs(data, next, EncodePairs(others)))
            && off + |all| == next + |EncodePairs(others)|
  {
    OccursConcat(data, off, Encode(k), Encode(v) + EncodePairs(others));
    OccursConcat(data, off + |Encode(k)|, Encode(v), EncodePairs(others));
  }

  lemma KeyAndValueDecoded(data: seq<Octet>, off: nat, middle: nat, next: nat, k: Option<Value>, v: Option<Value>,
                           maxCap: nat)
    requires Decode(data, off, maxCap) == Expected(k, middle) && Decode(data, middle, maxCap) == Expected(v, next)
    ensures DecodePair(data, off, maxCap) == Expected(Paired(k, v), next)
  {
  }

  /** A key and the value behind it are decoded. */
  lemma {:induction false} DecodeKeyAndValue(data: seq<Octet>, off: nat, pairs: Pairs, maxCap: nat)
    requires pairs.APair? && WellFormed(pairs.key) && WellFormed(pairs.value)
    requires Occurs(data, off, Encode(pairs.key)) && Occurs(data, off + |Encode(pairs.key)|, Encode(pairs.value))
    ensures DecodePair(data, off, maxCap)
            == Expected(Paired(GoValue(pairs.key, maxCap), GoValue(pairs.value, maxCap)),
                        off + |Encode(pairs.key)| + |Encode(pairs.value)|)
    decreases pairs, 0
  {
    var middle := off + |Encode(pairs.key)|;
    DecodeEncoded(data, off, pairs.key, maxCap);
    DecodeEncoded(data, middle, pairs.value, maxCap);
    KeyAndValueDecoded(data, off, middle, middle + |Encode(pairs.value)|,
                       GoValue(pairs.key, maxCap), GoValue(pairs.value, maxCap), maxCap);
  }

  /** The first pair is decoded, and the others are encoded behind it. */
  lemma {:induction false} DecodeFirstPair(data: seq<Octet>, off: nat, pairs: Pairs, maxCap: nat) returns (next: nat)
    requires pairs.APair? && WellFormedPairs(pairs) && Occurs(data, off, EncodePairs(pairs))
    ensures DecodePair(data, off, maxCap)
            == Expected(Paired(GoValue(pairs.key, maxCap), GoValue(pairs.value, maxCap)), next)
    ensures Occurs(data, next, EncodePairs(pairs.others))
    ensures off + |EncodePairs(pairs)| == next + |EncodePairs(pairs.others)|
    decreases pairs, 1
  {
    PairOccurs(data, off, pairs.key, pairs.value, pairs.others);
    DecodeKeyAndValue(data, off, pairs, maxCap);
    next := off + |Encode(pairs.key)| + |Encode(pairs.value)|;
  }

  /** Both sides go on alike behind the first pair. */
  lemma FirstPairStep(data: seq<Octet>, off: nat, next: nat, pairs: Pairs, maxCap: nat, acc: map<Value, Value>)
    requires pairs.APair?
    requires DecodePair(data, off, maxCap)
             == Expected(Paired(GoValue(pairs.key, maxCap), GoValue(pairs.value, maxCap)), next)
    ensures var kv := Paired(GoValue(pairs.key, maxCap), GoValue(pairs.value, maxCap));
            if kv.Some? && kv.value.0.Hashable() then
              var acc' := acc[kv.value.0 := kv.value.1];
              && DecodePairs(data, off, CountPairs(pairs), maxCap, acc)
                 == DecodePairs(data, next, CountPairs(pairs.others), maxCap, acc')
              && GoPairs(pairs, maxCap, acc) == GoPairs(pairs.others, maxCap, acc')
            else DecodePairs(data, off, CountPairs(pairs), maxCap, acc) == Panic && GoPairs(pairs, maxCap, acc) == None
  {
  }

  lemma {:induction false} DecodeEncodedPairs(data: seq<Octet>, off: nat, pairs: Pairs, maxCap: nat,
                                              acc: map<Value, Value>)
    requires WellFormedPairs(pairs) && Occurs(data, off, EncodePairs(pairs))
    ensures DecodePairs(data, off, CountPairs(pairs), maxCap, acc)
            == Expected(GoPairs(pairs, maxCap, acc), off + |EncodePairs(pairs)|)
    decreases pairs, 2
  {
    if pairs.APair? {
      var next := DecodeFirstPair(data, off, pairs, maxCap);
      FirstPairStep(data, off, next, pairs, maxCap, acc);
      var kv := Paired(GoValue(pairs.key, maxCap), GoValue(pairs.value, maxCap));
      if kv.Some? && kv.value.0.Hashable() {
        DecodeEncodedPairs(data, next, pairs.others, maxCap, acc[kv.value.0 := kv.value.1]);
      }
    }
  }

  /** Round trip: with anything in front and behind. */
  lemma RoundTrip(before: seq<Octet>, item: Item, behind: seq<Octet>, maxCap: nat)
    requires WellFormed(item)
    ensures Decode(before + Encode(item) + behind, |before|, maxCap)
            == Expected(GoValue(item, maxCap), |before| + |Encode(item)|)
  {
    var data := before + Encode(item) + behind;
    assert Occurs(data, |before|, Encode(item)) by {
      forall i | 0 <= i < |Encode(item)|
        ensures data[|before| + i] == Encode(item)[i]
      {
      }
    }
    DecodeEncoded(data, |before|, item, maxCap);
  }

  // ----- Whatever is decoded was an encoding -----

  /** Every successful decoding reads exactly the encoding of an item, and returns its value. */
  lemma {:induction false} DecodedIsEncoded(data: seq<Octet>, off: nat, maxCap: nat) returns (item: Item)
    requires Decode(data, off, maxCap).Done?
    ensures var r := Decode(data, off, maxCap);
            && WellFormed(item) && Occurs(data, off, Encode(item))
            && r.next == off + |Encode(item)| && GoValue(item, maxCap) == Some(r.value)
    decreases Left(data, off), 0, 0
  {
    var (n, next) := Argument(data, off + 1, data[off] % 32).value;
    var w := HeadRead(data, off, n, next);
    item := DecodedValueIsEncoded(data, data[off] / 32, w, n, next, maxCap);
    OccursConcat(data, off, Head(Major(item), Width(item), Arg(item)), Payload(item));
  }

  lemma {:induction false} DecodedValueIsEncoded(data: seq<Octet>, major: nat, w: nat, n: nat, off: nat, maxCap: nat)
    returns (item: Item)
    requires major < 8 && Fits(w, n) && off <= |data|
    requires DecodeValue(data, major, Additional(w, n), n, off, maxCap).Done?
    ensures var r := DecodeValue(data, major, Additional(w, n), n, off, maxCap);
            && WellFormed(item) && Major(item) == major && Width(item) == w && Arg(item) == n
            && Occurs(data, off, Payload(item))
            && r.next == off + |Payload(item)| && GoValue(item, maxCap) == Some(r.value)
    decreases Left(data, off), 3, 0
  {
    match major
    case 4 =>
      var items := DecodedItemsAreEncoded(data, off, n, maxCap, []);
      item := List(w, items);
    case 5 =>
      var pairs := DecodedPairsAreEncoded(data, off, n, maxCap, map[]);
      item := Dictionary(w, pairs);
    case 6 =>
      var inner := DecodedIsEncoded(data, off, maxCap);
      item := Tagged(w, n, inner);
    case _ => item := DecodedFlatIsEncoded(data, major, w, n, off, maxCap);
  }

  lemma DecodedFlatIsEncoded(data: seq<Octet>, major: nat, w: nat, n: nat, off: nat, maxCap: nat) returns (item: Item)
    requires major < 8 && !(4 <= major <= 6) && Fits(w, n) && off <= |data|
    requires DecodeValue(data, major, Additional(w, n), n, off, maxCap).Done?
    ensures var r := DecodeValue(data, major, Additional(w, n), n, off, maxCap);
            && WellFormed(item) && Major(item) == major && Width(item) == w && Arg(item) == n
            && Occurs(data, off, Payload(item))
            && r.next == off + |Payload(item)| && GoValue(item, maxCap) == Some(r.value)
  {
    match major
    case 0 => item := Unsigned(w, n);
    case 1 => item := Negative(w, n);
    case 2 => item := ByteString(w, data[off..off + n]);
    case 3 => item := TextString(w, data[off..off + n]);
    case _ => item := Simple(n);
  }

  lemma {:induction false} DecodedItemsAreEncoded(data: seq<Octet>, off: nat, n: nat, maxCap: nat, acc: seq<Value>)
    returns (items: Items)
    requires DecodeItems(data, off, n, maxCap, acc).Done? && off <= |data|
    ensures Count(items) == n && WellFormedItems(items)
    ensures var r := DecodeItems(data, off, n, maxCap, acc);
            && Occurs(data, off, EncodeItems(items)) && r.next == off + |EncodeItems(items)|
            && GoValues(items, maxCap, acc) == Some(r.value)
    decreases Left(data, off), 2, n
  {
    if n == 0 {
      items := NoItem;
    } else {
      var Done(v, next) := Decode(data, off, maxCap);
      var first := DecodedIsEncoded(data, off, maxCap);
      var others := DecodedItemsAreEncoded(data, next, n - 1, maxCap, acc + [v]);
      items := AnItem(first, others);
      OccursConcat(data, off, Encode(first), EncodeItems(others));
    }
  }

  lemma {:induction false} DecodedPairIsEncoded(data: seq<Octet>, off: nat, maxCap: nat) returns (k: Item, v: Item)
    requires DecodePair(data, off, maxCap).Done?
    ensures WellFormed(k) && WellFormed(v)
    ensures var r := DecodePair(data, off, maxCap);
            && Occurs(data, off, Encode(k)) && Occurs(data, off + |Encode(k)|, Encode(v))
            && r.next == off + |Encode(k)| + |Encode(v)|
            && Paired(GoValue(k, maxCap), GoValue(v, maxCap)) == Some(r.value)
    decreases Left(data, off), 1, 0
  {
    var middle := Decode(data, off, maxCap).next;
    k := DecodedIsEncoded(data, off, maxCap);
    v := DecodedIsEncoded(data, middle, maxCap);
  }

  /** The decoder of pairs has gone on behind a first one. */
  lemma PairsGoOn(data: seq<Octet>, off: nat, n: nat, maxCap: nat, acc: map<Value, Value>)
    returns (kv: (Value, Value), next: nat)
    requires n > 0 && DecodePairs(data, off, n, maxCap, acc).Done?
    ensures DecodePair(data, off, maxCap) == Done(kv, next) && kv.0.Hashable() && off < next <= |data|
    ensures DecodePairs(data, off, n, maxCap, acc) == DecodePairs(data, next, n - 1, maxCap, acc[kv.0 := kv.1])
  {
    kv, next := DecodePair(data, off, maxCap).value, DecodePair(data, off, maxCap).next;
  }

  lemma {:induction false} DecodedPairsAreEncoded(data: seq<Octet>, off: nat, n: nat, maxCap: nat,
                                                  acc: map<Value, Value>)
    returns (pairs: Pairs)
    requires DecodePairs(data, off, n, maxCap, acc).Done? && off <= |data|
    ensures CountPairs(pairs) == n && WellFormedPairs(pairs)
    ensures var r := DecodePairs(data, off, n, maxCap, acc);
            && Occurs(data, off, EncodePairs(pairs)) && r.next == off + |EncodePairs(pairs)|
            && GoPairs(pairs, maxCap, acc) == Some(r.value)
    decreases Left(data, off), 2, n
  {
    if n == 0 {
      pairs := NoPair;
    } else {
      var kv, next := PairsGoOn(data, off, n, maxCap, acc);
      var k, v := DecodedPairIsEncoded(data, off, maxCap);
      var others := DecodedPairsAreEncoded(data, next, n - 1, maxCap, acc[kv.0 := kv.1]);
      pairs := APair(k, v, others);
      PairOccurs(data, off, k, v, others);
      FirstPairStep(data, off, next, pairs, maxCap, acc);
    }
  }
}
