/**
 The CBOR decoder of `internal/auth/webauthn.go`, against the encoding of section 3
 of RFC 8949.  An `Item` is one encoding of a data item: it also says in how many
 bytes each argument is written, so that every definite-length encoding is covered
 and not only the shortest one.
 */
module Cbor {
  import opened Octets
  import opened Prelude

  const TWO_63 := 0x8000_0000_0000_0000

  /** What the decoder hands out: Go's `int64`, `[]byte`, `string`, `[]any`, `map[any]any`, `bool` and `nil`. */
  datatype Value =
    | Int(n: int)
    | Bytes(b: seq<Octet>)
    | Text(b: seq<Octet>)
    | Array(values: seq<Value>)
    | Mapping(m: map<Value, Value>)
    | Bool(v: bool)
    | Nil
  {
    /** Go panics on a map key of slice or map type. */
    predicate Hashable() {
      Int? || Text? || Bool? || Nil?
    }
  }

  /** A value with the offset behind it, an error, or a run-time panic. */
  datatype Outcome<+T> = Done(value: T, next: nat) | Fail | Panic

  // ----- Encoded items -----

  /** An argument is written in `w` bytes of its own, or for 0 inside the initial byte. */
  datatype Item =
    | Unsigned(w: nat, n: nat)
    | Negative(w: nat, n: nat)
    | ByteString(w: nat, b: seq<Octet>)
    | TextString(w: nat, b: seq<Octet>)
    | List(w: nat, items: Items)
    | Dictionary(w: nat, pairs: Pairs)
    | Tagged(w: nat, n: nat, item: Item)
    | Simple(n: nat)

  datatype Items = NoItem | AnItem(first: Item, others: Items)

  datatype Pairs = NoPair | APair(key: Item, value: Item, others: Pairs)

  function Count(items: Items): nat {
    match items
    case NoItem => 0
    case AnItem(_, others) => 1 + Count(others)
  }

  function CountPairs(pairs: Pairs): nat {
    match pairs
    case NoPair => 0
    case APair(_, _, others) => 1 + CountPairs(others)
  }

  predicate Fits(w: nat, n: nat) {
    w in {0, 1, 2, 4, 8} && (if w == 0 then n < 24 else n < Limit(w))
  }

  /** The low five bits of the initial byte. */
  function Additional(w: nat, n: nat): (a: nat)
    requires Fits(w, n)
    ensures a < 28
  {
    match w
    case 0 => n
    case 1 => 24
    case 2 => 25
    case 4 => 26
    case _ => 27
  }

  /** Initial byte and argument. */
  function Head(major: nat, w: nat, n: nat): (b: seq<Octet>)
    requires major < 8 && Fits(w, n)
    ensures |b| == 1 + w
  {
    [32 * major + Additional(w, n)] + BigEndian(n, w)
  }

  function Major(item: Item): (m: nat)
    ensures m < 8
  {
    match item
    case Unsigned(_, _) => 0
    case Negative(_, _) => 1
    case ByteString(_, _) => 2
    case TextString(_, _) => 3
    case List(_, _) => 4
    case Dictionary(_, _) => 5
    case Tagged(_, _, _) => 6
    case Simple(_) => 7
  }

  function Width(item: Item): nat {
    if item.Simple? then 0 else item.w
  }

  /** The argument of the initial byte: a number, a length, a count of pairs, a tag, a simple value. */
  function Arg(item: Item): nat {
    match item
    case Unsigned(_, n) => n
    case Negative(_, n) => n
    case ByteString(_, b) => |b|
    case TextString(_, b) => |b|
    case List(_, items) => Count(items)
    case Dictionary(_, pairs) => CountPairs(pairs)
    case Tagged(_, n, _) => n
    case Simple(n) => n
  }

  predicate WellFormed(item: Item) {
    && Fits(Width(item), Arg(item))
    && match item
       case List(_, items) => WellFormedItems(items)
       case Dictionary(_, pairs) => WellFormedPairs(pairs)
       case Tagged(_, _, inner) => WellFormed(inner)
       case Simple(n) => 20 <= n
       case _ => true
  }

  predicate WellFormedItems(items: Items) {
    match items
    case NoItem => true
    case AnItem(first, others) => WellFormed(first) && WellFormedItems(others)
  }

  predicate WellFormedPairs(pairs: Pairs) {
    match pairs
    case NoPair => true
    case APair(k, v, others) => WellFormed(k) && WellFormed(v) && WellFormedPairs(others)
  }

  function Encode(item: Item): (b: seq<Octet>)
    requires WellFormed(item)
    decreases item, 2
  {
    Head(Major(item), Width(item), Arg(item)) + Payload(item)
  }

  function Payload(item: Item): (b: seq<Octet>)
    requires WellFormed(item)
    decreases item, 0
  {
    match item
    case ByteString(_, b) => b
    case TextString(_, b) => b
    case List(_, items) => EncodeItems(items)
    case Dictionary(_, pairs) => EncodePairs(pairs)
    case Tagged(_, _, inner) => Encode(inner)
    case _ => []
  }

  function EncodeItems(items: Items): seq<Octet>
    requires WellFormedItems(items)
    decreases items, 3
  {
    match items
    case NoItem => []
    case AnItem(first, others) => Encode(first) + EncodeItems(others)
  }

  function EncodePairs(pairs: Pairs): seq<Octet>
    requires WellFormedPairs(pairs)
    decreases pairs, 3
  {
    match pairs
    case NoPair => []
    case APair(k, v, others) => Encode(k) + (Encode(v) + EncodePairs(others))
  }

  function ArgumentWidth(add: nat): Option<nat> {
    match add
    case 24 => Some(1)
    case 25 => Some(2)
    case 26 => Some(4)
    case 27 => Some(8)
    case _ => None
  }

  /** `cborLength`: the argument and the offset behind it. */
  function Argument(data: seq<Octet>, off: nat, add: nat): (r: Option<(nat, nat)>)
    ensures r.Some? ==> off <= r.value.1 && (off <= |data| ==> r.value.1 <= |data|)
  {
    if add < 24 then Some((add, off)) else
      match ArgumentWidth(add)
      case None => None
      case Some(w) => if off + w > |data| then None else Some((FromBigEndian(data, off, w), off + w))
  }

  /** The conversion from `uint64` to `int64`. */
  function ToInt64(n: nat): int {
    if n < TWO_63 then n else n - 2 * TWO_63
  }

  function Left(data: seq<Octet>, off: nat): nat {
    if off < |data| then |data| - off else 0
  }

  /** What `decodeCBOR` returns.  `maxCap` is the largest capacity for which a slice of
      values can be made. */
  function Decode(data: seq<Octet>, off: nat, maxCap: nat): (r: Outcome<Value>)
    ensures r.Done? ==> off < r.next <= |data|
    decreases Left(data, off), 0, 0
  {
    if off >= |data| then Fail else
      match Argument(data, off + 1, data[off] % 32)
      case None => Fail
      case Some((n, next)) => DecodeValue(data, data[off] / 32, data[off] % 32, n, next, maxCap)
  }

  /** The value behind an initial byte and its argument. */
  function DecodeValue(data: seq<Octet>, major: nat, add: nat, n: nat, off: nat, maxCap: nat): (r: Outcome<Value>)
    ensures r.Done? ==> off <= r.next && (off <= |data| ==> r.next <= |data|)
    decreases Left(data, off), 3, 0
  {
    match major
    case 0 => Done(Int(ToInt64(n)), off)
    case 1 => Done(Int(-1 - ToInt64(n)), off)
    case 2 => if n > |data| - off then Fail else Done(Bytes(data[off..off + n]), off + n)
    case 3 => if n > |data| - off then Fail else Done(Text(data[off..off + n]), off + n)
    case 4 =>
      if n > maxCap then Panic else
        (match DecodeItems(data, off, n, maxCap, [])
         case Done(values, end) => Done(Array(values), end)
         case Fail => Fail
         case Panic => Panic)
    case 5 =>
      (match DecodePairs(data, off, n, maxCap, map[])
       case Done(m, end) => Done(Mapping(m), end)
       case Fail => Fail
       case Panic => Panic)
    case 6 => Decode(data, off, maxCap)
    case _ =>
      if add == 20 then Done(Bool(false), off)
      else if add == 21 then Done(Bool(true), off)
      else if add == 22 || add == 23 then Done(Nil, off)
      else Fail
  }

  function DecodeItems(data: seq<Octet>, off: nat, n: nat, maxCap: nat, acc: seq<Value>): (r: Outcome<seq<Value>>)
    ensures r.Done? ==> off <= r.next && (off <= |data| ==> r.next <= |data|)
    decreases Left(data, off), 2, n
  {
    if n == 0 then Done(acc, off) else
      match Decode(data, off, maxCap)
      case Fail => Fail
      case Panic => Panic
      case Done(v, next) => DecodeItems(data, next, n - 1, maxCap, acc + [v])
  }

  /** A key and the value behind it. */
  function DecodePair(data: seq<Octet>, off: nat, maxCap: nat): (r: Outcome<(Value, Value)>)
    ensures r.Done? ==> off < r.next <= |data|
    decreases Left(data, off), 1, 0
  {
    match Decode(data, off, maxCap)
    case Fail => Fail
    case Panic => Panic
    case Done(k, middle) =>
      match Decode(data, middle, maxCap)
      case Fail => Fail
      case Panic => Panic
      case Done(v, next) => Done((k, v), next)
  }

  function DecodePairs(data: seq<Octet>, off: nat, n: nat, maxCap: nat, acc: map<Value, Value>)
    : (r: Outcome<map<Value, Value>>)
    ensures r.Done? ==> off <= r.next && (off <= |data| ==> r.next <= |data|)
    decreases Left(data, off), 2, n
  {
    if n == 0 then Done(acc, off) else
      match DecodePair(data, off, maxCap)
      case Fail => Fail
      case Panic => Panic
      case Done((k, v), next) =>
        if !k.Hashable() then Panic else DecodePairs(data, next, n - 1, maxCap, acc[k := v])
  }

  /** `decodeCBOR`, with its loops. */
  method DecodeCBOR(data: seq<Octet>, offset: nat, maxCap: nat) returns (r: Outcome<Value>)
    ensures r == Decode(data, offset, maxCap)
    decreases Left(data, offset), 0
  {
    if offset >= |data| {
      return Fail;
    }
    var major, add := data[offset] / 32, data[offset] % 32;
    var argument := Argument(data, offset + 1, add);
    if argument == None {
      return Fail;
    }
    var length, off := argument.value.0, argument.value.1;
    if major == 0 {
      r := Done(Int(ToInt64(length)), off);
    } else if major == 1 {
      r := Done(Int(-1 - ToInt64(length)), off);
    } else if major == 2 {
      r := if length > |data| - off then Fail else Done(Bytes(data[off..off + length]), off + length);
    } else if major == 3 {
      r := if length > |data| - off then Fail else Done(Text(data[off..off + length]), off + length);
    } else if major == 4 {
      r := if length > maxCap then Panic else Fail;
      if length <= maxCap {
        var values := ReadItems(data, off, length, maxCap);
        r := match values case Done(s, end) => Done(Array(s), end) case Fail => Fail case Panic => Panic;
      }
    } else if major == 5 {
      var pairs := ReadPairs(data, off, length, maxCap);
      r := match pairs case Done(m, end) => Done(Mapping(m), end) case Fail => Fail case Panic => Panic;
    } else if major == 6 {
      r := DecodeCBOR(data, off, maxCap);
    } else if add == 20 {
      r := Done(Bool(false), off);
    } else if add == 21 {
      r := Done(Bool(true), off);
    } else if add == 22 || add == 23 {
      r := Done(Nil, off);
    } else {
      r := Fail;
    }
  }

  /** The loop over the elements of an array. */
  method ReadItems(data: seq<Octet>, start: nat, length: nat, maxCap: nat) returns (r: Outcome<seq<Value>>)
    ensures r == DecodeItems(data, start, length, maxCap, [])
    decreases Left(data, start), 1
  {
    var arr, offset := [], start;
    for i := 0 to length
      invariant start <= offset
      invariant DecodeItems(data, start, length, maxCap, []) == DecodeItems(data, offset, length - i, maxCap, arr)
    {
      var v := DecodeCBOR(data, offset, maxCap);
      match v {
        case Fail => return Fail;
        case Panic => return Panic;
        case Done(value, next) => arr, offset := arr + [value], next;
      }
    }
    r := Done(arr, offset);
  }

  /** The loop over the keys and values of a map. */
  method ReadPairs(data: seq<Octet>, start: nat, length: nat, maxCap: nat) returns (r: Outcome<map<Value, Value>>)
    ensures r == DecodePairs(data, start, length, maxCap, map[])
    decreases Left(data, start), 1
  {
    var m: map<Value, Value> := map[];
    var offset := start;
    for i := 0 to length
      invariant start <= offset
      invariant DecodePairs(data, start, length, maxCap, map[]) == DecodePairs(data, offset, length - i, maxCap, m)
    {
      var k := DecodeCBOR(data, offset, maxCap);
      if !k.Done? {
        return if k == Fail then Fail else Panic;
      }
      var v := DecodeCBOR(data, k.next, maxCap);
      if !v.Done? {
        return if v == Fail then Fail else Panic;
      }
      if !k.value.Hashable() {
        return Panic;
      }
      m, offset := m[k.value := v.value], v.next;
    }
    r := Done(m, offset);
  }

  // ----- What an item decodes to -----

  /** The Go value of an item, or none if decoding it panics: on an unhashable key, or on
      an array for which no slice can be made. */
  function GoValue(item: Item, maxCap: nat): Option<Value>
    decreases item, 0
  {
    match item
    case Unsigned(_, n) => Some(Int(ToInt64(n)))
    case Negative(_, n) => Some(Int(-1 - ToInt64(n)))
    case ByteString(_, b) => Some(Bytes(b))
    case TextString(_, b) => Some(Text(b))
    case List(_, items) =>
      if Count(items) > maxCap then None else
        (match GoValues(items, maxCap, []) case Some(vs) => Some(Array(vs)) case None => None)
    case Dictionary(_, pairs) =>
      (match GoPairs(pairs, maxCap, map[]) case Some(m) => Some(Mapping(m)) case None => None)
    case Tagged(_, _, inner) => GoValue(inner, maxCap)
    case Simple(n) => Some(if n == 20 then Bool(false) else if n == 21 then Bool(true) else Nil)
  }

  function GoValues(items: Items, maxCap: nat, acc: seq<Value>): Option<seq<Value>>
    decreases items, 1
  {
    match items
    case NoItem => Some(acc)
    case AnItem(first, others) =>
      match GoValue(first, maxCap)
      case None => None
      case Some(v) => GoValues(others, maxCap, acc + [v])
  }

  function Paired(k: Option<Value>, v: Option<Value>): Option<(Value, Value)> {
    if k.Some? && v.Some? then Some((k.value, v.value)) else None
  }

  /** A later value for a key replaces an earlier one. */
  function GoPairs(pairs: Pairs, maxCap: nat, acc: map<Value, Value>): Option<map<Value, Value>>
    decreases pairs, 1
  {
    match pairs
    case NoPair => Some(acc)
    case APair(key, value, others) =>
      match Paired(GoValue(key, maxCap), GoValue(value, maxCap))
      case None => None
      case Some((k, v)) => if !k.Hashable() then None else GoPairs(others, maxCap, acc[k := v])
  }
}
