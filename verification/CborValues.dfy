/**
 Where the decoder's value is not the value that RFC 8949 gives an item: integers out of
 range, tags and undefined, keys that Go cannot use, and lists that are too long.
 */
module CborValues {
  import opened Octets
  import opened Prelude
  import opened Cbor
  import opened CborRoundTrip

  // ----- Which items end in a panic -----

  /** Go can use the value of the item as a map key: through tags, it is no byte string, list
      or dictionary. */
  predicate KeyKind(item: Item) {
    match item
    case Tagged(_, _, inner) => KeyKind(inner)
    case _ => !item.ByteString? && !item.List? && !item.Dictionary?
  }

  /** No list has more than `maxCap` elements, and every key is of a kind that Go can use. */
  predicate Survives(item: Item, maxCap: nat) {
    match item
    case List(_, items) => Count(items) <= maxCap && ItemsSurvive(items, maxCap)
    case Dictionary(_, pairs) => PairsSurvive(pairs, maxCap)
    case Tagged(_, _, inner) => Survives(inner, maxCap)
    case _ => true
  }

  predicate ItemsSurvive(items: Items, maxCap: nat) {
    match items
    case NoItem => true
    case AnItem(first, others) => Survives(first, maxCap) && ItemsSurvive(others, maxCap)
  }

  predicate PairsSurvive(pairs: Pairs, maxCap: nat) {
    match pairs
    case NoPair => true
    case APair(k, v, others) => KeyKind(k) && Survives(k, maxCap) && Survives(v, maxCap) && PairsSurvive(others, maxCap)
  }

  /** Decoding an item panics if and only if a list in it is too long or a key is not of a kind
      that Go can use. */
  lemma {:induction false} PanicsIff(item: Item, maxCap: nat)
    ensures GoValue(item, maxCap).Some? <==> Survives(item, maxCap)
    ensures GoValue(item, maxCap).Some? ==> (GoValue(item, maxCap).value.Hashable() <==> KeyKind(item))
    decreases item, 0
  {
    match item
    case List(_, items) => ItemsPanicIff(items, maxCap, []);
    case Dictionary(_, pairs) => PairsPanicIff(pairs, maxCap, map[]);
    case Tagged(_, _, inner) => PanicsIff(inner, maxCap);
    case _ =>
  }

  lemma {:induction false} ItemsPanicIff(items: Items, maxCap: nat, acc: seq<Value>)
    ensures GoValues(items, maxCap, acc).Some? <==> ItemsSurvive(items, maxCap)
    decreases items, 1
  {
    match items
    case NoItem =>
    case AnItem(first, others) =>
      PanicsIff(first, maxCap);
      var v := GoValue(first, maxCap);
      if v.Some? {
        ItemsPanicIff(others, maxCap, acc + [v.value]);
      }
  }

  lemma {:induction false} PairsPanicIff(pairs: Pairs, maxCap: nat, acc: map<Value, Value>)
    ensures GoPairs(pairs, maxCap, acc).Some? <==> PairsSurvive(pairs, maxCap)
    decreases pairs, 1
  {
    match pairs
    case NoPair =>
    case APair(key, value, others) =>
      PanicsIff(key, maxCap);
      PanicsIff(value, maxCap);
      var k, v := GoValue(key, maxCap), GoValue(value, maxCap);
      if k.Some? && v.Some? && k.value.Hashable() {
        PairsPanicIff(others, maxCap, acc[k.value := v.value]);
      }
  }

  /** So the decoder panics on exactly the encodings of such items. */
  lemma EncodedPanicsIff(before: seq<Octet>, item: Item, behind: seq<Octet>, maxCap: nat)
    requires WellFormed(item)
    ensures Decode(before + Encode(item) + behind, |before|, maxCap) == Panic <==> !Survives(item, maxCap)
  {
    RoundTrip(before, item, behind, maxCap);
    PanicsIff(item, maxCap);
  }

  /** A map of one pair whose key is the empty byte string: three octets that panic. */
  lemma ByteStringKeyPanics(maxCap: nat)
    ensures Decode([0xA1, 0x40, 0x00], 0, maxCap) == Panic
  {
  }

  /** The head of a list that is too long is enough, whatever comes behind it. */
  lemma LongListPanics(data: seq<Octet>, off: nat, w: nat, n: nat, maxCap: nat)
    requires Fits(w, n) && n > maxCap && Occurs(data, off, Head(4, w, n))
    ensures Decode(data, off, maxCap) == Panic
  {
    ReadHead(data, off, 4, w, n);
  }

  // ----- The values of RFC 8949 -----

  /** Values as section 2 of RFC 8949 has them: integers of any size, tags that are kept, and
      undefined beside null. */
  datatype Rfc =
    | RfcInt(n: int)
    | RfcBytes(b: seq<Octet>)
    | RfcText(b: seq<Octet>)
    | RfcArray(values: seq<Rfc>)
    | RfcMap(m: map<Rfc, Rfc>)
    | RfcTag(tag: nat, content: Rfc)
    | RfcBool(v: bool)
    | RfcNull
    | RfcUndefined

  /** The value of an item; it is a valid one only if the keys of its maps are distinct. */
  ghost function RfcValue(item: Item): Rfc
    decreases item, 0
  {
    match item
    case Unsigned(_, n) => RfcInt(n)
    case Negative(_, n) => RfcInt(-1 - n)
    case ByteString(_, b) => RfcBytes(b)
    case TextString(_, b) => RfcText(b)
    case List(_, items) => RfcArray(RfcValues(items, []))
    case Dictionary(_, pairs) => RfcMap(RfcPairs(pairs, map[]))
    case Tagged(_, n, inner) => RfcTag(n, RfcValue(inner))
    case Simple(n) =>
      if n == 20 then RfcBool(false) else if n == 21 then RfcBool(true) else if n == 22 then RfcNull else RfcUndefined
  }

  ghost function RfcValues(items: Items, acc: seq<Rfc>): seq<Rfc>
    decreases items, 1
  {
    match items
    case NoItem => acc
    case AnItem(first, others) => RfcValues(others, acc + [RfcValue(first)])
  }

  ghost function RfcPairs(pairs: Pairs, acc: map<Rfc, Rfc>): map<Rfc, Rfc>
    decreases pairs, 1
  {
    match pairs
    case NoPair => acc
    case APair(k, v, others) => RfcPairs(others, acc[RfcValue(k) := RfcValue(v)])
  }

  /** What a Go value says: for a key of a map. */
  ghost function MeansKey(k: Value): Rfc
    requires k.Hashable()
  {
    match k
    case Int(n) => RfcInt(n)
    case Text(b) => RfcText(b)
    case Bool(v) => RfcBool(v)
    case Nil => RfcNull
  }

  /** The key of a Go map that says `r`. */
  ghost function KeyFor(r: Rfc): Value {
    match r
    case RfcInt(n) => Int(n)
    case RfcText(b) => Text(b)
    case RfcBool(v) => Bool(v)
    case _ => Nil
  }

  ghost function MeansKeys(m: map<Value, Value>): set<Rfc> {
    set k | k in m && k.Hashable() :: MeansKey(k)
  }

  /** What a Go value says: for any value. */
  ghost function Means(v: Value): Rfc {
    match v
    case Bytes(b) => RfcBytes(b)
    case Array(values) => RfcArray(seq(|values|, i requires 0 <= i < |values| => Means(values[i])))
    case Mapping(m) => RfcMap(map r | r in MeansKeys(m) :: Means(m[KeyFor(r)]))
    case _ => MeansKey(v)
  }

  ghost function MeansAll(values: seq<Value>): seq<Rfc> {
    Means(Array(values)).values
  }

  ghost function MeansPairs(m: map<Value, Value>): map<Rfc, Rfc> {
    Means(Mapping(m)).m
  }

  /** The decoder's value says what the item says. */
  ghost predicate IsExact(item: Item, maxCap: nat) {
    var v := GoValue(item, maxCap);
    v.Some? && Means(v.value) == RfcValue(item)
  }

  // ----- Which items are decoded exactly -----

  /** There is no tag and no undefined in the item, and every integer fits an `int64`. */
  predicate Expressible(item: Item) {
    match item
    case Unsigned(_, n) => n < TWO_63
    case Negative(_, n) => n < TWO_63
    case List(_, items) => AllExpressible(items)
    case Dictionary(_, pairs) => PairsExpressible(pairs)
    case Tagged(_, _, _) => false
    case Simple(n) => n < 23
    case _ => true
  }

  predicate AllExpressible(items: Items) {
    match items
    case NoItem => true
    case AnItem(first, others) => Expressible(first) && AllExpressible(others)
  }

  predicate PairsExpressible(pairs: Pairs) {
    match pairs
    case NoPair => true
    case APair(k, v, others) => Expressible(k) && Expressible(v) && PairsExpressible(others)
  }

  predicate Representable(item: Item, maxCap: nat) {
    Expressible(item) && Survives(item, maxCap)
  }

  lemma MeansOneMore(acc: seq<Value>, v: Value)
    ensures MeansAll(acc + [v]) == MeansAll(acc) + [Means(v)]
  {
  }

  lemma SameEntry(m: map<Value, Value>, x: Value)
    requires x in m && x.Hashable()
    ensures MeansKey(x) in MeansPairs(m) && MeansPairs(m)[MeansKey(x)] == Means(m[x])
  {
    assert MeansKey(x) in MeansKeys(m) && KeyFor(MeansKey(x)) == x;
  }

  lemma MeansOnePair(acc: map<Value, Value>, k: Value, v: Value)
    requires k.Hashable()
    ensures MeansPairs(acc[k := v]) == MeansPairs(acc)[MeansKey(k) := Means(v)]
  {
    var more := acc[k := v];
    assert KeyFor(MeansKey(k)) == k;
    SameEntry(more, k);
    forall x | x in acc && x.Hashable() && x != k
      ensures MeansKey(x) != MeansKey(k)
      ensures MeansKey(x) in MeansPairs(more) && MeansPairs(more)[MeansKey(x)] == MeansPairs(acc)[MeansKey(x)]
    {
      assert KeyFor(MeansKey(x)) == x;
      SameEntry(more, x);
      SameEntry(acc, x);
    }
    assert MeansKeys(more) == MeansKeys(acc) + {MeansKey(k)};
  }

  /** A representable item decodes to its RFC 8949 value, whatever its keys. */
  lemma {:induction false} RepresentableIsExact(item: Item, maxCap: nat)
    requires WellFormed(item) && Representable(item, maxCap)
    ensures IsExact(item, maxCap)
    decreases item, 0
  {
    match item
    case List(_, items) =>
      ItemsAreExact(items, maxCap, []);
      assert MeansAll([]) == [];
    case Dictionary(_, pairs) =>
      PairsAreExact(pairs, maxCap, map[]);
      assert MeansPairs(map[]) == map[];
    case _ =>
  }

  lemma {:induction false} ItemsAreExact(items: Items, maxCap: nat, acc: seq<Value>)
    requires WellFormedItems(items) && AllExpressible(items) && ItemsSurvive(items, maxCap)
    ensures var r := GoValues(items, maxCap, acc); r.Some? && MeansAll(r.value) == RfcValues(items, MeansAll(acc))
    decreases items, 1
  {
    match items
    case NoItem =>
    case AnItem(first, others) =>
      RepresentableIsExact(first, maxCap);
      var v := GoValue(first, maxCap).value;
      MeansOneMore(acc, v);
      ItemsAreExact(others, maxCap, acc + [v]);
  }

  lemma {:induction false} PairsAreExact(pairs: Pairs, maxCap: nat, acc: map<Value, Value>)
    requires WellFormedPairs(pairs) && PairsExpressible(pairs) && PairsSurvive(pairs, maxCap)
    ensures var r := GoPairs(pairs, maxCap, acc); r.Some? && MeansPairs(r.value) == RfcPairs(pairs, MeansPairs(acc))
    decreases pairs, 1
  {
    match pairs
    case NoPair =>
    case APair(key, value, others) =>
      RepresentableIsExact(key, maxCap);
      RepresentableIsExact(value, maxCap);
      PanicsIff(key, maxCap);
      var k, v := GoValue(key, maxCap).value, GoValue(value, maxCap).value;
      MeansOnePair(acc, k, v);
      PairsAreExact(others, maxCap, acc[k := v]);
  }

  /** An integer is exact if and only if it fits: arguments of 2^63 and more change sign. */
  lemma IntegerIsExactIff(w: nat, n: nat, maxCap: nat)
    requires Fits(w, n)
    ensures IsExact(Unsigned(w, n), maxCap) <==> n < TWO_63
    ensures IsExact(Negative(w, n), maxCap) <==> n < TWO_63
  {
  }

  /** An integer is decoded to the one in range that differs from it by a multiple of 2^64. */
  lemma IntegersWrap(w: nat, n: nat, maxCap: nat)
    requires Fits(w, n)
    ensures exists x :: -TWO_63 <= x < TWO_63 && GoValue(Unsigned(w, n), maxCap) == Some(Int(x))
                        && (x - n) % (2 * TWO_63) == 0
    ensures exists x :: -TWO_63 <= x < TWO_63 && GoValue(Negative(w, n), maxCap) == Some(Int(x))
                        && (x - (-1 - n)) % (2 * TWO_63) == 0
  {
    assert Limit(1) == 256 && Limit(2) == 0x1_0000 && Limit(4) == 0x1_0000_0000 && Limit(8) == 2 * TWO_63;
    var x := ToInt64(n);
    assert GoValue(Unsigned(w, n), maxCap) == Some(Int(x));
    assert GoValue(Negative(w, n), maxCap) == Some(Int(-1 - x));
  }

  // ----- The converse, for valid items -----

  /** No map in the item has two keys of the same value. */
  ghost predicate DistinctKeys(item: Item) {
    match item
    case List(_, items) => ItemsDistinct(items)
    case Dictionary(_, pairs) => PairsDistinct(pairs)
    case Tagged(_, _, inner) => DistinctKeys(inner)
    case _ => true
  }

  ghost predicate ItemsDistinct(items: Items) {
    match items
    case NoItem => true
    case AnItem(first, others) => DistinctKeys(first) && ItemsDistinct(others)
  }

  ghost predicate PairsDistinct(pairs: Pairs) {
    match pairs
    case NoPair => true
    case APair(k, v, others) =>
      DistinctKeys(k) && DistinctKeys(v) && NoRfcKey(others, RfcValue(k)) && PairsDistinct(others)
  }

  /** No key of the list has the RFC 8949 value `x`. */
  ghost predicate NoRfcKey(pairs: Pairs, x: Rfc) {
    match pairs
    case NoPair => true
    case APair(k, _, others) => RfcValue(k) != x && NoRfcKey(others, x)
  }

  /** No key of the list has the Go value `x`. */
  ghost predicate NoGoKey(pairs: Pairs, maxCap: nat, x: Value) {
    match pairs
    case NoPair => true
    case APair(k, _, others) => GoValue(k, maxCap) != Some(x) && NoGoKey(others, maxCap, x)
  }

  /** A valid item decodes to its RFC 8949 value if and only if it is representable. */
  lemma {:induction false} ExactIffRepresentable(item: Item, maxCap: nat)
    requires WellFormed(item) && DistinctKeys(item)
    ensures IsExact(item, maxCap) <==> Representable(item, maxCap)
  {
    if Representable(item, maxCap) {
      RepresentableIsExact(item, maxCap);
    }
    if IsExact(item, maxCap) {
      PanicsIff(item, maxCap);
      ExactIsExpressible(item, maxCap);
    }
  }

  lemma {:induction false} ExactIsExpressible(item: Item, maxCap: nat)
    requires WellFormed(item) && DistinctKeys(item) && IsExact(item, maxCap)
    ensures Expressible(item)
    decreases item, 0
  {
    match item
    case List(_, items) => ExactItemsExpressible(items, maxCap, [], []);
    case Dictionary(_, pairs) =>
      EqualMapsHaveExactKeys(pairs, maxCap, map[], map[]);
      ExactPairsExpressible(pairs, maxCap, map[], map[]);
    case _ =>
  }

  lemma {:induction false} ExactItemsExpressible(items: Items, maxCap: nat, go: seq<Value>, rfc: seq<Rfc>)
    requires WellFormedItems(items) && ItemsDistinct(items) && |go| == |rfc|
    requires GoValues(items, maxCap, go).Some?
    requires MeansAll(GoValues(items, maxCap, go).value) == RfcValues(items, rfc)
    ensures AllExpressible(items)
    decreases items, 1
  {
    match items
    case NoItem =>
    case AnItem(first, others) =>
      var v, w := GoValue(first, maxCap).value, RfcValue(first);
      GoValuesKeep(others, maxCap, go + [v]);
      RfcValuesKeep(others, rfc + [w]);
      assert Means(v) == Means((go + [v])[|go|]) == RfcValues(items, rfc)[|go|] == (rfc + [w])[|go|] == w;
      ExactIsExpressible(first, maxCap);
      ExactItemsExpressible(others, maxCap, go + [v], rfc + [w]);
  }

  lemma {:induction false} GoValuesKeep(items: Items, maxCap: nat, acc: seq<Value>)
    requires GoValues(items, maxCap, acc).Some?
    ensures acc <= GoValues(items, maxCap, acc).value
    decreases items
  {
    if items.AnItem? {
      GoValuesKeep(items.others, maxCap, acc + [GoValue(items.first, maxCap).value]);
    }
  }

  lemma {:induction false} RfcValuesKeep(items: Items, acc: seq<Rfc>)
    ensures acc <= RfcValues(items, acc)
    decreases items
  {
    if items.AnItem? {
      RfcValuesKeep(items.others, acc + [RfcValue(items.first)]);
    }
  }

  /** Go's integers are in range. */
  predicate InRange(x: Value) {
    x.Int? ==> -TWO_63 <= x.n < TWO_63
  }

  lemma {:induction false} GoInRange(item: Item, maxCap: nat)
    requires WellFormed(item) && GoValue(item, maxCap).Some?
    ensures InRange(GoValue(item, maxCap).value)
    decreases item
  {
    if item.Tagged? {
      GoInRange(item.item, maxCap);
    }
  }

  lemma {:induction false} GoKeysInRange(pairs: Pairs, maxCap: nat, acc: map<Value, Value>)
    requires WellFormedPairs(pairs) && GoPairs(pairs, maxCap, acc).Some?
    requires forall x <- acc :: InRange(x)
    ensures forall x <- GoPairs(pairs, maxCap, acc).value :: InRange(x)
    decreases pairs
  {
    if pairs.APair? {
      GoInRange(pairs.key, maxCap);
      GoKeysInRange(pairs.others, maxCap, acc[GoValue(pairs.key, maxCap).value := GoValue(pairs.value, maxCap).value]);
    }
  }

  lemma {:induction false} RfcPairsKeep(pairs: Pairs, acc: map<Rfc, Rfc>, x: Rfc)
    requires x in acc
    ensures x in RfcPairs(pairs, acc)
    ensures NoRfcKey(pairs, x) ==> RfcPairs(pairs, acc)[x] == acc[x]
    decreases pairs
  {
    if pairs.APair? {
      RfcPairsKeep(pairs.others, acc[RfcValue(pairs.key) := RfcValue(pairs.value)], x);
    }
  }

  lemma {:induction false} GoPairsKeep(pairs: Pairs, maxCap: nat, acc: map<Value, Value>, x: Value)
    requires x in acc && GoPairs(pairs, maxCap, acc).Some? && NoGoKey(pairs, maxCap, x)
    ensures var m := GoPairs(pairs, maxCap, acc).value; x in m && m[x] == acc[x]
    decreases pairs
  {
    if pairs.APair? {
      GoPairsKeep(pairs.others, maxCap, acc[GoValue(pairs.key, maxCap).value := GoValue(pairs.value, maxCap).value], x);
    }
  }

  /** Every key says the same decoded as encoded. */
  ghost predicate KeysExact(pairs: Pairs, maxCap: nat) {
    match pairs
    case NoPair => true
    case APair(k, _, others) => IsExact(k, maxCap) && Expressible(k) && KeysExact(others, maxCap)
  }

  /** What an integer in range, a text, a truth value or null says is said by no item with a
      tag or with undefined. */
  lemma KeyIsExact(item: Item, maxCap: nat, x: Value)
    requires WellFormed(item) && x.Hashable() && InRange(x) && MeansKey(x) == RfcValue(item)
    ensures Expressible(item) && IsExact(item, maxCap)
  {
  }

  lemma {:induction false} NoKeyOfEitherKind(pairs: Pairs, maxCap: nat, x: Value)
    requires KeysExact(pairs, maxCap) && NoRfcKey(pairs, Means(x))
    ensures NoGoKey(pairs, maxCap, x)
    decreases pairs
  {
    if pairs.APair? {
      NoKeyOfEitherKind(pairs.others, maxCap, x);
    }
  }

  /** Every key of the one map is said by a key of the other, and those are in range. */
  lemma {:induction false} EqualMapsHaveExactKeys(pairs: Pairs, maxCap: nat, go: map<Value, Value>, rfc: map<Rfc, Rfc>)
    requires WellFormedPairs(pairs) && forall x <- go :: InRange(x)
    requires GoPairs(pairs, maxCap, go).Some?
    requires MeansPairs(GoPairs(pairs, maxCap, go).value) == RfcPairs(pairs, rfc)
    ensures KeysExact(pairs, maxCap)
    decreases pairs
  {
    if pairs.APair? {
      var k, v := pairs.key, pairs.value;
      var all := GoPairs(pairs, maxCap, go).value;
      GoKeysInRange(pairs, maxCap, go);
      RfcPairsKeep(pairs.others, rfc[RfcValue(k) := RfcValue(v)], RfcValue(k));
      assert RfcValue(k) in MeansPairs(all);
      var x :| x in all && x.Hashable() && MeansKey(x) == RfcValue(k);
      KeyIsExact(k, maxCap, x);
      EqualMapsHaveExactKeys(pairs.others, maxCap, go[GoValue(k, maxCap).value := GoValue(v, maxCap).value],
                             rfc[RfcValue(k) := RfcValue(v)]);
    }
  }

  /** The key belongs to one pair only, so what it maps to on both sides is that pair's value. */
  lemma {:induction false} ExactPairsExpressible(pairs: Pairs, maxCap: nat, go: map<Value, Value>, rfc: map<Rfc, Rfc>)
    requires WellFormedPairs(pairs) && PairsDistinct(pairs) && KeysExact(pairs, maxCap)
    requires GoPairs(pairs, maxCap, go).Some?
    requires MeansPairs(GoPairs(pairs, maxCap, go).value) == RfcPairs(pairs, rfc)
    ensures PairsExpressible(pairs)
    decreases pairs, 1
  {
    match pairs
    case NoPair =>
    case APair(k, v, others) =>
      var x, y := GoValue(k, maxCap).value, GoValue(v, maxCap).value;
      NoKeyOfEitherKind(others, maxCap, x);
      GoPairsKeep(others, maxCap, go[x := y], x);
      RfcPairsKeep(others, rfc[RfcValue(k) := RfcValue(v)], RfcValue(k));
      SameEntry(GoPairs(pairs, maxCap, go).value, x);
      ExactIsExpressible(v, maxCap);
      ExactPairsExpressible(others, maxCap, go[x := y], rfc[RfcValue(k) := RfcValue(v)]);
  }

  // ----- What is lost -----

  /** Undefined is decoded as null is. */
  lemma UndefinedIsLost(maxCap: nat)
    ensures Decode([0xF7], 0, maxCap) == Decode([0xF6], 0, maxCap) == Done(Nil, 1)
    ensures RfcValue(Simple(23)) != RfcValue(Simple(22))
  {
  }

  /** A tag is dropped. */
  lemma TagIsLost(maxCap: nat)
    ensures Decode([0xC1, 0x00], 0, maxCap) == Done(Int(0), 2)
    ensures RfcValue(Tagged(0, 1, Unsigned(0, 0))) == RfcTag(1, RfcInt(0))
  {
  }

  /** A map with two entries, under null and under undefined. */
  function NullAndUndefined(): Item {
    Dictionary(0, APair(Simple(22), Unsigned(0, 0), APair(Simple(23), Unsigned(0, 1), NoPair)))
  }

  lemma EncodedNullAndUndefined()
    ensures WellFormed(NullAndUndefined()) && Encode(NullAndUndefined()) == [0xA2, 0xF6, 0x00, 0xF7, 0x01]
  {
    var second := APair(Simple(23), Unsigned(0, 1), NoPair);
    assert EncodePairs(second) == [0xF7, 0x01];
    assert EncodePairs(APair(Simple(22), Unsigned(0, 0), second)) == [0xF6, 0x00, 0xF7, 0x01];
  }

  lemma ReadNullAndUndefined(maxCap: nat)
    ensures GoValue(NullAndUndefined(), maxCap) == Some(Mapping(map[Nil := Int(1)]))
  {
    var one: map<Value, Value> := map[];
    var second := APair(Simple(23), Unsigned(0, 1), NoPair);
    assert one[Nil := Int(0)][Nil := Int(1)] == map[Nil := Int(1)];
    assert GoPairs(second, maxCap, one[Nil := Int(0)]) == GoPairs(NoPair, maxCap, one[Nil := Int(0)][Nil := Int(1)]);
    assert GoPairs(NullAndUndefined().pairs, maxCap, one) == GoPairs(second, maxCap, one[Nil := Int(0)]);
  }

  lemma ValueOfNullAndUndefined()
    ensures DistinctKeys(NullAndUndefined())
    ensures RfcValue(NullAndUndefined()) == RfcMap(map[RfcNull := RfcInt(0), RfcUndefined := RfcInt(1)])
  {
    var second := APair(Simple(23), Unsigned(0, 1), NoPair);
    assert RfcPairs(second, map[RfcNull := RfcInt(0)]) == map[RfcNull := RfcInt(0), RfcUndefined := RfcInt(1)];
  }

  /** So the entry of one key can replace that of another: five octets that are a valid map of
      two entries are decoded as a map of one. */
  lemma EntryIsLost(maxCap: nat)
    ensures WellFormed(NullAndUndefined()) && Encode(NullAndUndefined()) == [0xA2, 0xF6, 0x00, 0xF7, 0x01]
    ensures DistinctKeys(NullAndUndefined())
    ensures RfcValue(NullAndUndefined()) == RfcMap(map[RfcNull := RfcInt(0), RfcUndefined := RfcInt(1)])
    ensures Decode([0xA2, 0xF6, 0x00, 0xF7, 0x01], 0, maxCap) == Done(Mapping(map[Nil := Int(1)]), 5)
  {
    EncodedNullAndUndefined();
    ValueOfNullAndUndefined();
    ReadNullAndUndefined(maxCap);
    assert [] + Encode(NullAndUndefined()) + [] == Encode(NullAndUndefined());
    RoundTrip([], NullAndUndefined(), [], maxCap);
  }
}
