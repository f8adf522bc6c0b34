/**
 Fields the parser of a prevote does not know (x/oracle/types/oracle.pb.go:1250-1262, 1503-1580),
 of every wire type and with nested groups, as "Message Structure" of the Protocol Buffers
 Encoding specification writes them: each is passed over to exactly its end, so an encoding
 parses the same with unknown fields anywhere between its parts.
 */
module UnknownFields {
  import opened Wrappers
  import opened Varint
  import opened PrevoteCodec

  datatype Unknown =
    | Number(num: nat, value: nat)
    | Fixed64(num: nat, bits: Bytes)
    | Blob(num: nat, bytes: Bytes)
    | Group(num: nat, fields: seq<Unknown>)
    | Fixed32(num: nat, bits: Bytes)

  /** Field numbers have 29 bits, values the width of their wire type. */
  predicate WellFormed(u: Unknown) {
    && 1 <= u.num < 0x2000_0000
    && match u
       case Number(_, value) => value < TWO64
       case Fixed64(_, bits) => |bits| == 8
       case Blob(_, bytes) => true
       case Group(_, fields) => AllWellFormed(fields)
       case Fixed32(_, bits) => |bits| == 4
  }

  predicate AllWellFormed(us: seq<Unknown>) {
    us == [] || (WellFormed(us[0]) && AllWellFormed(us[1..]))
  }

  /** The bytes that start a field. */
  function Tag(num: nat, wireType: nat): Bytes {
    Encode(8 * num + wireType)
  }

  function Wire(u: Unknown): Bytes {
    match u
    case Number(num, value) => Tag(num, 0) + Encode(value)
    case Fixed64(num, bits) => Tag(num, 1) + bits
    case Blob(num, bytes) => Tag(num, 2) + (Encode(|bytes|) + bytes)
    case Group(num, fields) => Tag(num, 3) + (WireAll(fields) + Tag(num, 4))
    case Fixed32(num, bits) => Tag(num, 5) + bits
  }

  function WireAll(us: seq<Unknown>): Bytes {
    if us == [] then [] else Wire(us[0]) + WireAll(us[1..])
  }

  // ---------- skipping

  /** Where a decoded varint ends is where the skipping loop stops. */
  lemma {:induction false} SkipFollowsDecode(data: Bytes, i: nat, k: nat, acc: uint64)
    requires DecodeFrom(data, i, k, acc).Ok?
    ensures SkipVarint(data, i, k) == Ok(DecodeFrom(data, i, k, acc).value.1)
    decreases if i <= |data| then |data| - i else 0
  {
    if data[i] >= 128 {
      SkipFollowsDecode(data, i + 1, k + 1, (acc + data[i] % 128 * Pow128(k)) % TWO64);
    }
  }

  lemma TagRead(data: Bytes, i: nat, num: nat, wireType: nat, rest: Bytes)
    requires num < 0x2000_0000 && wireType < 8 && At(data, i, Tag(num, wireType) + rest)
    ensures i < |data| && Decode(data, i) == Ok((8 * num + wireType, i + |Tag(num, wireType)|))
    ensures At(data, i + |Tag(num, wireType)|, rest)
    ensures (8 * num + wireType) % 8 == wireType && FieldNum(8 * num + wireType) == num
  {
    hide Decode, Encode;
    AtSplit(data, i, Tag(num, wireType), rest);
    VarintRoundTrip(data, i, 8 * num + wireType);
  }

  /** One turn of the skipping loop. */
  lemma SkipTurn(data: Bytes, i: nat, depth: nat, wire: uint64, start: nat, end: nat, depth': nat)
    requires i < |data| && Decode(data, i) == Ok((wire, start))
    requires SkipValue(data, start, wire % 8, depth) == Ok((end, depth'))
    ensures Skip(data, i, depth) == if depth' == 0 then Ok(end) else Skip(data, end, depth')
  {
    hide Decode, SkipValue;
  }

  /** What skipping from i at a depth comes to once everything up to end is passed over. */
  ghost predicate PassesOver(data: Bytes, i: nat, end: nat, depth: nat) {
    Skip(data, i, depth) == if depth == 0 then Ok(end) else Skip(data, end, depth)
  }

  /** An unknown field is passed over to exactly its end, at any depth of groups. */
  lemma {:induction false} SkipWire(data: Bytes, i: nat, u: Unknown, depth: nat)
    requires |data| < TWO63 && WellFormed(u) && At(data, i, Wire(u))
    ensures PassesOver(data, i, i + |Wire(u)|, depth)
    decreases u, 1
  {
    hide At, PassesOver, Encode;
    match u
    case Number(num, value) => SkipNumber(data, i, num, value, depth);
    case Fixed64(num, bits) => SkipFixed(data, i, num, 1, bits, depth);
    case Blob(num, bytes) => SkipBlob(data, i, num, bytes, depth);
    case Group(num, fields) => SkipGroup(data, i, num, fields, depth);
    case Fixed32(num, bits) => SkipFixed(data, i, num, 5, bits, depth);
  }

  lemma SkipNumber(data: Bytes, i: nat, num: nat, value: nat, depth: nat)
    requires num < 0x2000_0000 && value < TWO64 && At(data, i, Tag(num, 0) + Encode(value))
    ensures PassesOver(data, i, i + |Tag(num, 0) + Encode(value)|, depth)
  {
    hide Decode, Skip, Encode, SkipVarint;
    var start := i + |Tag(num, 0)|;
    TagRead(data, i, num, 0, Encode(value));
    VarintRoundTrip(data, start, value);
    SkipPastNumber(data, start);
    SkipTurn(data, i, depth, 8 * num, start, start + |Encode(value)|, depth);
  }

  lemma SkipPastNumber(data: Bytes, i: nat)
    requires Decode(data, i).Ok?
    ensures SkipVarint(data, i, 0) == Ok(Decode(data, i).value.1)
  {
    SkipFollowsDecode(data, i, 0, 0);
  }

  lemma SkipFixed(data: Bytes, i: nat, num: nat, wireType: nat, bits: Bytes, depth: nat)
    requires num < 0x2000_0000 && (wireType, |bits|) in {(1, 8), (5, 4)}
    requires At(data, i, Tag(num, wireType) + bits)
    ensures PassesOver(data, i, i + |Tag(num, wireType) + bits|, depth)
  {
    hide Decode, Skip, Encode, SkipVarint;
    var start := i + |Tag(num, wireType)|;
    TagRead(data, i, num, wireType, bits);
    SkipTurn(data, i, depth, 8 * num + wireType, start, start + |bits|, depth);
  }

  lemma SkipBlob(data: Bytes, i: nat, num: nat, bytes: Bytes, depth: nat)
    requires |data| < TWO63 && num < 0x2000_0000 && At(data, i, Tag(num, 2) + (Encode(|bytes|) + bytes))
    ensures PassesOver(data, i, i + |Tag(num, 2) + (Encode(|bytes|) + bytes)|, depth)
  {
    hide Decode, Skip, Encode, SkipVarint;
    var start := i + |Tag(num, 2)|;
    TagRead(data, i, num, 2, Encode(|bytes|) + bytes);
    AtSplit(data, start, Encode(|bytes|), bytes);
    VarintRoundTrip(data, start, |bytes|);
    SkipTurn(data, i, depth, 8 * num + 2, start, start + |Encode(|bytes|)| + |bytes|, depth);
  }

  lemma {:induction false} SkipGroup(data: Bytes, i: nat, num: nat, fields: seq<Unknown>, depth: nat)
    requires |data| < TWO63 && num < 0x2000_0000 && AllWellFormed(fields)
    requires At(data, i, Tag(num, 3) + (WireAll(fields) + Tag(num, 4)))
    ensures PassesOver(data, i, i + |Tag(num, 3) + (WireAll(fields) + Tag(num, 4))|, depth)
    decreases fields, 1
  {
    hide Decode, Skip, Encode, SkipVarint, WireAll, AllWellFormed;
    var start := i + |Tag(num, 3)|;
    TagRead(data, i, num, 3, WireAll(fields) + Tag(num, 4));
    SkipTurn(data, i, depth, 8 * num + 3, start, start, depth + 1);
    AtSplit(data, start, WireAll(fields), Tag(num, 4));
    SkipWireAll(data, start, fields, depth + 1);
    var close := start + |WireAll(fields)|;
    assert Tag(num, 4) + [] == Tag(num, 4);
    TagRead(data, close, num, 4, []);
    SkipTurn(data, close, depth + 1, 8 * num + 4, close + |Tag(num, 4)|, close + |Tag(num, 4)|, depth);
  }

  lemma {:induction false} SkipWireAll(data: Bytes, i: nat, us: seq<Unknown>, depth: nat)
    requires |data| < TWO63 && AllWellFormed(us) && At(data, i, WireAll(us)) && depth > 0
    ensures Skip(data, i, depth) == Skip(data, i + |WireAll(us)|, depth)
    decreases us, 0
  {
    hide Skip, Wire, At, WellFormed;
    if us != [] {
      AtSplit(data, i, Wire(us[0]), WireAll(us[1..]));
      SkipWire(data, i, us[0], depth);
      SkipWireAll(data, i + |Wire(us[0])|, us[1..], depth);
    }
  }

  // ---------- parsing

  /** A field the message does not have. */
  predicate Foreign(u: Unknown) {
    WellFormed(u) && u.num > 3
  }

  function WireType(u: Unknown): nat {
    match u
    case Number(_, _) => 0
    case Fixed64(_, _) => 1
    case Blob(_, _) => 2
    case Group(_, _) => 3
    case Fixed32(_, _) => 5
  }

  lemma WireStarts(u: Unknown) returns (rest: Bytes)
    ensures Wire(u) == Tag(u.num, WireType(u)) + rest
  {
    rest := match u
      case Number(num, value) => Encode(value)
      case Fixed64(num, bits) => bits
      case Blob(num, bytes) => Encode(|bytes|) + bytes
      case Group(num, fields) => WireAll(fields) + Tag(num, 4)
      case Fixed32(num, bits) => bits;
  }

  /** An unknown field leaves the message alone and moves the cursor to its end. */
  lemma ParseForeign(data: Bytes, i: nat, u: Unknown, m: Message)
    requires |data| < TWO63 && Foreign(u) && At(data, i, Wire(u))
    ensures i + |Wire(u)| <= |data| && Parse(data, i, m) == Parse(data, i + |Wire(u)|, m)
  {
    hide Parse, Field, Skip, Wire, Decode, Encode, SkipVarint;
    var rest := WireStarts(u);
    TagRead(data, i, u.num, WireType(u), rest);
    assert data[i..][..|Wire(u)|] == data[i..i + |Wire(u)|];
    assert At(data[i..], 0, Wire(u));
    SkipWire(data[i..], 0, u, 0);
    assert Skip(data[i..], 0, 0) == Ok(|Wire(u)|);
    FieldForeign(data, i, m, 8 * u.num + WireType(u));
    ParseStep(data, i, m);
  }

  lemma FieldForeign(data: Bytes, i: nat, m: Message, wire: uint64)
    requires i < |data| && Decode(data, i).Ok? && Decode(data, i).value.0 == wire
    requires wire % 8 != 4 && FieldNum(wire) > 3
    requires Skip(data[i..], 0, 0).Ok? && i + Skip(data[i..], 0, 0).value <= |data| < TWO63
    ensures Field(data, i, m) == Ok((m, i + Skip(data[i..], 0, 0).value))
  {
    hide Decode, Skip, ReadBytes, FieldNum;
  }

  /** Encodings of messages with unknown fields in between. */
  datatype Item = Known(message: Message) | Extra(field: Unknown)

  predicate ItemsForeign(items: seq<Item>) {
    forall i :: 0 <= i < |items| && items[i].Extra? ==> Foreign(items[i].field)
  }

  function ItemBytes(item: Item): Bytes {
    match item
    case Known(message) => Encoded(message)
    case Extra(field) => Wire(field)
  }

  function Stream(items: seq<Item>): Bytes {
    if items == [] then [] else ItemBytes(items[0]) + Stream(items[1..])
  }

  /** What an item does to the message parsed so far. */
  function Applied(m: Message, item: Item): Message {
    if item.Known? then Merge(m, item.message) else m
  }

  /** The known messages merged in order, later fields winning. */
  function Merged(m: Message, items: seq<Item>): Message
    decreases |items|
  {
    if items == [] then m else Merged(Applied(m, items[0]), items[1..])
  }

  lemma ParseItem(data: Bytes, i: nat, item: Item, m: Message)
    requires |data| < TWO63 && (item.Extra? ==> Foreign(item.field)) && At(data, i, ItemBytes(item))
    ensures i + |ItemBytes(item)| <= |data|
    ensures Parse(data, i, m) == Parse(data, i + |ItemBytes(item)|, Applied(m, item))
  {
    hide Parse, Wire, Encoded, Merge, Foreign;
    match item
    case Known(n) => ParseEncoded(data, i, m, n);
    case Extra(u) => ParseForeign(data, i, u, m);
  }

  lemma {:induction false} ParseStream(data: Bytes, i: nat, items: seq<Item>, m: Message)
    requires |data| < TWO63 && ItemsForeign(items) && At(data, i, Stream(items))
    ensures i + |Stream(items)| <= |data|
    ensures Parse(data, i, m) == Parse(data, i + |Stream(items)|, Merged(m, items))
    decreases |items|
  {
    hide Parse, ItemBytes, Applied, Foreign;
    if items != [] {
      var first, rest := items[0], items[1..];
      AtSplit(data, i, ItemBytes(first), Stream(rest));
      ParseItem(data, i, first, m);
      ParseStream(data, i + |ItemBytes(first)|, rest, Applied(m, first));
    }
  }

  /** Any stream of encodings and unknown fields parses as its encodings merged. */
  lemma UnknownFieldsIgnored(items: seq<Item>)
    requires ItemsForeign(items) && |Stream(items)| < TWO63
    ensures Parse(Stream(items), 0, EMPTY) == Ok(Merged(EMPTY, items))
  {
    hide Parse;
    var data := Stream(items);
    assert data[0..|data|] == data;
    ParseStream(data, 0, items, EMPTY);
    ParseEnd(data, Merged(EMPTY, items));
  }
}
