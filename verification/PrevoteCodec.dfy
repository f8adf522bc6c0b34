/**
 The generated codec of AggregateExchangeRatePrevote (x/oracle/types/oracle.pb.go:501-541,
 685-702, 1138-1270, 1503-1580): a printer that fills a buffer from the back and a parser that
 moves a cursor, following "Message Structure" of the Protocol Buffers Encoding
 specification. Strings are their bytes; a Go int has 63 value bits.
 */
module PrevoteCodec {
  import opened Wrappers
  import opened Varint

  datatype Message = Message(hash: Bytes, voter: Bytes, submitBlock: uint64)

  const EMPTY: Message := Message([], [], 0)

  // ---------- printing

  function StringField(tag: byte, s: Bytes): Bytes {
    if s == [] then [] else [tag] + Encode(|s|) + s
  }

  function NumberField(tag: byte, v: uint64): Bytes {
    if v == 0 then [] else [tag] + Encode(v)
  }

  /** The bytes of a message: non-default fields in ascending order. */
  function Encoded(m: Message): Bytes {
    StringField(0x0a, m.hash) + StringField(0x12, m.voter) + NumberField(0x18, m.submitBlock)
  }

  /** Size (oracle.pb.go:685-702). */
  function Size(m: Message): nat {
    (if |m.hash| > 0 then 1 + |m.hash| + Sov(|m.hash|) else 0)
    + (if |m.voter| > 0 then 1 + |m.voter| + Sov(|m.voter|) else 0)
    + (if m.submitBlock != 0 then 1 + Sov(m.submitBlock) else 0)
  }

  /** The encoding fits a Go slice. */
  predicate Fits(m: Message) {
    Size(m) < TWO63
  }

  lemma SizeIsLength(m: Message)
    ensures Size(m) == |Encoded(m)|
  {
    SovIsLength(|m.hash|);
    SovIsLength(|m.voter|);
    SovIsLength(m.submitBlock);
  }

  /** What a step of the backward printer leaves: the new bytes before those already printed. */
  ghost predicate Printed(pre: Bytes, post: Bytes, i: nat, tail: Bytes) {
    |post| == |pre| && i + |tail| == |pre| && post[..i] == pre[..i] && post[i..] == tail
  }

  /** The bytes of a string field, written backwards: content, length, tag (oracle.pb.go:526-539). */
  method PutString(buffer: array<byte>, end: nat, tag: byte, s: Bytes, ghost pre: Bytes, ghost tail: Bytes)
    returns (i: nat)
    requires Printed(pre, buffer[..], end, tail) && |StringField(tag, s)| <= end && |s| < TWO63
    modifies buffer
    ensures i == end - |StringField(tag, s)|
    ensures Printed(pre, buffer[..], i, StringField(tag, s) + tail)
  {
    hide Printed, Encode;
    i := end;
    if |s| > 0 {
      i := i - |s|;
      PutBytes(buffer, i, s, pre, tail);
      i := PutVarint(buffer, i, |s|, pre, s + tail);
      i := i - 1;
      PutBytes(buffer, i, [tag], pre, Encode(|s|) + (s + tail));
      Reassociate(tag, Encode(|s|), s, tail);
    } else {
      assert StringField(tag, s) + tail == tail;
    }
  }

  lemma Reassociate(tag: byte, a: Bytes, b: Bytes, c: Bytes)
    ensures [tag] + (a + (b + c)) == ([tag] + a + b) + c
  {
  }

  /** copy(dAtA[i:], s). */
  method PutBytes(buffer: array<byte>, i: nat, s: Bytes, ghost pre: Bytes, ghost tail: Bytes)
    requires Printed(pre, buffer[..], i + |s|, tail)
    modifies buffer
    ensures Printed(pre, buffer[..], i, s + tail)
  {
    ghost var was := buffer[..];
    PrintedParts(pre, was, i + |s|, tail);
    hide Printed;
    for k := 0 to |s|
      invariant i + |s| <= buffer.Length
      invariant buffer[..] == was[..i] + s[..k] + was[i + k..]
    {
      assert s[..k + 1] == s[..k] + [s[k]];
      SplicePut(was, i, s[..k], i + k, s[k]);
      buffer[i + k] := s[k];
    }
    assert s[..|s|] == s;
    PrintedMore(pre, was, i, s, tail, buffer[..]);
  }

  lemma PrintedMore(pre: Bytes, was: Bytes, i: nat, s: Bytes, tail: Bytes, post: Bytes)
    requires Printed(pre, was, i + |s|, tail) && post == was[..i] + s + was[i + |s|..]
    ensures Printed(pre, post, i, s + tail)
  {
    assert was[..i] == was[..i + |s|][..i];
    assert pre[..i] == pre[..i + |s|][..i];
  }

  method PutVarint(buffer: array<byte>, end: nat, v: uint64, ghost pre: Bytes, ghost tail: Bytes) returns (i: nat)
    requires Printed(pre, buffer[..], end, tail) && |Encode(v)| <= end
    modifies buffer
    ensures i == end - |Encode(v)| && Printed(pre, buffer[..], i, Encode(v) + tail)
  {
    hide Encode;
    SovIsLength(v);
    ghost var was := buffer[..];
    i := EncodeVarint(buffer, end, v);
    ghost var now := buffer[..];
    assert now[..i] == was[..i] && now[i..end] == Encode(v) && now[end..] == was[end..];
    assert now == was[..i] + Encode(v) + was[i + |Encode(v)|..];
    PrintedMore(pre, was, i, Encode(v), tail, now);
  }

  /** MarshalToSizedBuffer (oracle.pb.go:516-541). */
  method MarshalToSizedBuffer(buffer: array<byte>, m: Message) returns (n: nat)
    requires Size(m) <= buffer.Length && Fits(m)
    modifies buffer
    ensures n == Size(m)
    ensures buffer[buffer.Length - n..] == Encoded(m)
    ensures buffer[..buffer.Length - n] == old(buffer[..buffer.Length - n])
  {
    hide Printed, Encode, StringField, Size;
    SizeIsLength(m);
    PartsFit(m);
    ghost var pre := buffer[..];
    var i := buffer.Length;
    ghost var tail: Bytes := [];
    NothingPrinted(pre);
    if m.submitBlock != 0 {
      i := PutVarint(buffer, i, m.submitBlock, pre, []);
      assert Encode(m.submitBlock) + [] == Encode(m.submitBlock);
      i := i - 1;
      PutBytes(buffer, i, [0x18], pre, Encode(m.submitBlock));
    }
    tail := NumberField(0x18, m.submitBlock);
    ghost var a, b := StringField(0x0a, m.hash), StringField(0x12, m.voter);
    i := PutString(buffer, i, 0x12, m.voter, pre, tail);
    i := PutString(buffer, i, 0x0a, m.hash, pre, b + tail);
    assert a + (b + tail) == a + b + tail;
    PrintedParts(pre, buffer[..], i, a + b + tail);
    n := buffer.Length - i;
  }

  lemma PartsFit(m: Message)
    requires Fits(m)
    ensures |m.hash| < TWO63 && |m.voter| < TWO63
  {
  }

  lemma NothingPrinted(pre: Bytes)
    ensures Printed(pre, pre, |pre|, [])
  {
  }

  lemma PrintedParts(pre: Bytes, post: Bytes, i: nat, tail: Bytes)
    requires Printed(pre, post, i, tail)
    ensures |post| == |pre| == i + |tail| && post[..i] == pre[..i] && post[i..] == tail
  {
  }

  /** Marshal (oracle.pb.go:501-509): the size is computed first and exactly used up. */
  method Marshal(m: Message) returns (data: Bytes)
    requires Fits(m)
    ensures data == Encoded(m) && |data| == Size(m)
  {
    SizeIsLength(m);
    var buffer := new byte[Size(m)];
    var n := MarshalToSizedBuffer(buffer, m);
    data := buffer[..n];
  }

  // ---------- parsing

  /** int32(wire >> 3). */
  function FieldNum(wire: uint64): int {
    var low := wire / 8 % 0x1_0000_0000;
    if low < 0x8000_0000 then low else low - 0x1_0000_0000
  }

  /** A length-delimited field (oracle.pb.go:1171-1198): its bytes and where they end. */
  function ReadBytes(data: Bytes, i: nat): (r: Result<(Bytes, nat), Error>)
    ensures r.Ok? ==> i < r.value.1 <= |data|
  {
    var len := Decode(data, i);
    if len.Err? then Err(len.error)
    else
      var (n, start) := len.value;
      if n >= TWO63 || start + n >= TWO63 then Err(InvalidLength)
      else if start + n > |data| then Err(UnexpectedEOF)
      else Ok((data[start..start + n], start + n))
  }

  /** Past the varint at i, without its value (oracle.pb.go:1526-1537). */
  function SkipVarint(data: Bytes, i: nat, k: nat): (r: Result<nat, Error>)
    ensures r.Ok? ==> i < r.value <= |data|
    decreases if i <= |data| then |data| - i else 0
  {
    if k >= 10 then Err(IntOverflow)
    else if i >= |data| then Err(UnexpectedEOF)
    else if data[i] < 128 then Ok(i + 1)
    else SkipVarint(data, i + 1, k + 1)
  }

  /** Where the value of a wire type ends, and the group depth after it (oracle.pb.go:1524-1571). */
  function SkipValue(data: Bytes, i: nat, wireType: nat, depth: nat): (r: Result<(nat, nat), Error>)
    ensures r.Ok? ==> i <= r.value.0
  {
    match wireType
    case 0 => (var j := SkipVarint(data, i, 0); if j.Err? then Err(j.error) else Ok((j.value, depth)))
    case 1 => Ok((i + 8, depth))
    case 2 =>
      (var len := Decode(data, i);
       if len.Err? then Err(len.error)
       else if len.value.0 >= TWO63 || len.value.1 + len.value.0 >= TWO63 then Err(InvalidLength)
       else Ok((len.value.1 + len.value.0, depth)))
    case 3 => Ok((i, depth + 1))
    case 4 => if depth == 0 then Err(UnexpectedEndOfGroup) else Ok((i, depth - 1))
    case 5 => Ok((i + 4, depth))
    case _ => Err(IllegalWireType)
  }

  /** skipOracle (oracle.pb.go:1503-1580): past one field, groups included. */
  function Skip(data: Bytes, i: nat, depth: nat): (r: Result<nat, Error>)
    ensures r.Ok? ==> i < r.value
    decreases if i <= |data| then |data| - i else 0
  {
    if i >= |data| then Err(UnexpectedEOF)
    else
      var tag := Decode(data, i);
      if tag.Err? then Err(tag.error)
      else
        var value := SkipValue(data, tag.value.1, tag.value.0 % 8, depth);
        if value.Err? then Err(value.error)
        else if value.value.1 == 0 then Ok(value.value.0)
        else Skip(data, value.value.0, value.value.1)
  }

  /** One field (oracle.pb.go:1142-1263): the message with it set, and the cursor behind it. */
  function Field(data: Bytes, i: nat, m: Message): (r: Result<(Message, nat), Error>)
    ensures r.Ok? ==> i < r.value.1 <= |data|
  {
    var tag := Decode(data, i);
    if tag.Err? then Err(tag.error)
    else
      var (wire, start) := tag.value;
      if wire % 8 == 4 then Err(EndGroupForNonGroup)
      else if FieldNum(wire) <= 0 then Err(IllegalTag)
      else
        match FieldNum(wire)
        case 1 =>
          if wire % 8 != 2 then Err(WrongWireType)
          else (var s := ReadBytes(data, start);
                if s.Err? then Err(s.error) else Ok((m.(hash := s.value.0), s.value.1)))
        case 2 =>
          if wire % 8 != 2 then Err(WrongWireType)
          else (var s := ReadBytes(data, start);
                if s.Err? then Err(s.error) else Ok((m.(voter := s.value.0), s.value.1)))
        case 3 =>
          if wire % 8 != 0 then Err(WrongWireType)
          else (var v := Decode(data, start);
                if v.Err? then Err(v.error) else Ok((m.(submitBlock := v.value.0), v.value.1)))
        case _ =>
          (var n := Skip(data[i..], 0, 0);
           if n.Err? then Err(n.error)
           else if i + n.value >= TWO63 then Err(InvalidLength)
           else if i + n.value > |data| then Err(UnexpectedEOF)
           else Ok((m, i + n.value)))
  }

  /** Unmarshal (oracle.pb.go:1138-1270) from a cursor position, into a message already partly set. */
  function Parse(data: Bytes, i: nat, m: Message): Result<Message, Error>
    requires i <= |data|
    decreases |data| - i
  {
    if i == |data| then Ok(m)
    else
      var f := Field(data, i, m);
      if f.Err? then Err(f.error) else Parse(data, f.value.1, f.value.0)
  }

  // ---------- the imperative parser

  method ReadBytesAt(data: Bytes, start: nat) returns (r: Result<(Bytes, nat), Error>)
    requires start <= |data|
    ensures r == ReadBytes(data, start)
  {
    var stringLen := DecodeVarint(data, start);
    if stringLen.Err? {
      return Err(stringLen.error);
    }
    var (n, i) := stringLen.value;
    if n >= TWO63 {
      return Err(InvalidLength);
    }
    var postIndex := i + n;
    if postIndex >= TWO63 {
      return Err(InvalidLength);
    }
    if postIndex > |data| {
      return Err(UnexpectedEOF);
    }
    r := Ok((data[i..postIndex], postIndex));
  }

  /** The cursor of skipOracle strictly advances, also through nested groups. */
  method SkipOracle(data: Bytes) returns (r: Result<nat, Error>)
    ensures r == Skip(data, 0, 0)
  {
    var i, depth := 0, 0;
    while i < |data|
      invariant Skip(data, 0, 0) == Skip(data, i, depth)
      decreases |data| - i
    {
      var tag := DecodeVarint(data, i);
      if tag.Err? {
        return Err(tag.error);
      }
      ghost var value := SkipValue(data, tag.value.1, tag.value.0 % 8, depth);
      i := tag.value.1;
      match tag.value.0 % 8 {
        case 0 =>
          var j := SkipVarintAt(data, i);
          if j.Err? {
            return Err(j.error);
          }
          i := j.value;
        case 1 =>
          i := i + 8;
        case 2 =>
          var len := DecodeVarint(data, i);
          if len.Err? {
            return Err(len.error);
          }
          if len.value.0 >= TWO63 || len.value.1 + len.value.0 >= TWO63 {
            return Err(InvalidLength);
          }
          i := len.value.1 + len.value.0;
        case 3 =>
          depth := depth + 1;
        case 4 =>
          if depth == 0 {
            return Err(UnexpectedEndOfGroup);
          }
          depth := depth - 1;
        case 5 =>
          i := i + 4;
        case _ =>
          return Err(IllegalWireType);
      }
      assert value == Ok((i, depth));
      if depth == 0 {
        return Ok(i);
      }
    }
    r := Err(UnexpectedEOF);
  }

  method SkipVarintAt(data: Bytes, start: nat) returns (r: Result<nat, Error>)
    requires start <= |data|
    ensures r == SkipVarint(data, start, 0)
  {
    var i, shift: nat := start, 0;
    while true
      invariant start <= i <= |data| && shift == 7 * (i - start)
      invariant SkipVarint(data, start, 0) == SkipVarint(data, i, i - start)
      decreases |data| - i
    {
      if shift >= 64 {
        return Err(IntOverflow);
      }
      if i >= |data| {
        return Err(UnexpectedEOF);
      }
      i := i + 1;
      if data[i - 1] < 128 {
        return Ok(i);
      }
      shift := shift + 7;
    }
  }

  /** The switch of Unmarshal on one field. */
  method ParseField(data: Bytes, preIndex: nat, m: Message) returns (r: Result<(Message, nat), Error>)
    requires preIndex < |data|
    ensures r == Field(data, preIndex, m)
  {
    var tag := DecodeVarint(data, preIndex);
    if tag.Err? {
      return Err(tag.error);
    }
    var (wire, i) := tag.value;
    var fieldNum, wireType := FieldNum(wire), wire % 8;
    if wireType == 4 {
      return Err(EndGroupForNonGroup);
    }
    if fieldNum <= 0 {
      return Err(IllegalTag);
    }
    match fieldNum {
      case 1 =>
        if wireType != 2 {
          return Err(WrongWireType);
        }
        var s := ReadBytesAt(data, i);
        r := if s.Err? then Err(s.error) else Ok((m.(hash := s.value.0), s.value.1));
      case 2 =>
        if wireType != 2 {
          return Err(WrongWireType);
        }
        var s := ReadBytesAt(data, i);
        r := if s.Err? then Err(s.error) else Ok((m.(voter := s.value.0), s.value.1));
      case 3 =>
        if wireType != 0 {
          return Err(WrongWireType);
        }
        var v := DecodeVarint(data, i);
        r := if v.Err? then Err(v.error) else Ok((m.(submitBlock := v.value.0), v.value.1));
      case _ =>
        var skippy := SkipOracle(data[preIndex..]);
        if skippy.Err? {
          return Err(skippy.error);
        }
        if preIndex + skippy.value >= TWO63 {
          return Err(InvalidLength);
        }
        if preIndex + skippy.value > |data| {
          return Err(UnexpectedEOF);
        }
        r := Ok((m, preIndex + skippy.value));
    }
  }

  /** Unmarshal (oracle.pb.go:1138-1270): ends on every byte string, since every field moves the cursor on. */
  method Unmarshal(data: Bytes) returns (r: Result<Message, Error>)
    ensures r == Parse(data, 0, EMPTY)
  {
    hide Field;
    var i, m := 0, EMPTY;
    while i < |data|
      invariant 0 <= i <= |data|
      invariant Parse(data, 0, EMPTY) == Parse(data, i, m)
      decreases |data| - i
    {
      var f := ParseField(data, i, m);
      if f.Err? {
        return Err(f.error);
      }
      m, i := f.value.0, f.value.1;
    }
    r := Ok(m);
  }

  // ---------- laws

  /** Setting the non-default fields of n in m. */
  function Merge(m: Message, n: Message): Message {
    Message(
      if n.hash == [] then m.hash else n.hash,
      if n.voter == [] then m.voter else n.voter,
      if n.submitBlock == 0 then m.submitBlock else n.submitBlock)
  }

  /** The slice of data from i is s. */
  predicate At(data: Bytes, i: nat, s: Bytes) {
    i + |s| <= |data| && data[i..i + |s|] == s
  }

  lemma AtSplit(data: Bytes, i: nat, s: Bytes, t: Bytes)
    requires At(data, i, s + t)
    ensures At(data, i, s) && At(data, i + |s|, t)
  {
    assert data[i..i + |s|] == data[i..i + |s + t|][..|s|];
    assert data[i + |s|..i + |s| + |t|] == data[i..i + |s + t|][|s|..];
  }

  lemma TagDecodes(data: Bytes, i: nat, tag: byte)
    requires At(data, i, [tag]) && tag < 128
    ensures Decode(data, i) == Ok((tag, i + 1))
  {
    assert Encode(tag) == [tag];
    VarintRoundTrip(data, i, tag);
  }

  lemma StringDecodes(data: Bytes, i: nat, s: Bytes)
    requires |data| < TWO63 && At(data, i, Encode(|s|) + s)
    ensures ReadBytes(data, i) == Ok((s, i + |Encode(|s|)| + |s|))
  {
    hide Encode, Decode;
    AtSplit(data, i, Encode(|s|), s);
    VarintRoundTrip(data, i, |s|);
  }

  lemma ParseStep(data: Bytes, i: nat, m: Message)
    requires i < |data| && Field(data, i, m).Ok?
    ensures Parse(data, i, m) == Parse(data, Field(data, i, m).value.1, Field(data, i, m).value.0)
  {
  }

  lemma ParseHash(data: Bytes, i: nat, s: Bytes, m: Message)
    requires |data| < TWO63 && At(data, i, StringField(0x0a, s))
    ensures Parse(data, i, m) == Parse(data, i + |StringField(0x0a, s)|, if s == [] then m else m.(hash := s))
  {
    hide Parse, ReadBytes, Decode, At, Encode, Field;
    if s != [] {
      assert StringField(0x0a, s) == [0x0a] + (Encode(|s|) + s);
      AtSplit(data, i, [0x0a], Encode(|s|) + s);
      TagDecodes(data, i, 0x0a);
      StringDecodes(data, i + 1, s);
      FieldHash(data, i, m);
      ParseStep(data, i, m);
    }
  }

  lemma FieldHash(data: Bytes, i: nat, m: Message)
    requires Decode(data, i) == Ok((0x0a, i + 1)) && ReadBytes(data, i + 1).Ok?
    ensures i < |data|
    ensures Field(data, i, m) == Ok((m.(hash := ReadBytes(data, i + 1).value.0), ReadBytes(data, i + 1).value.1))
  {
    hide Decode, ReadBytes, Skip;
    assert FieldNum(0x0a) == 1;
  }

  lemma FieldVoter(data: Bytes, i: nat, m: Message)
    requires Decode(data, i) == Ok((0x12, i + 1)) && ReadBytes(data, i + 1).Ok?
    ensures i < |data|
    ensures Field(data, i, m) == Ok((m.(voter := ReadBytes(data, i + 1).value.0), ReadBytes(data, i + 1).value.1))
  {
    hide Decode, ReadBytes, Skip;
    assert FieldNum(0x12) == 2;
  }

  lemma FieldNumber(data: Bytes, i: nat, m: Message)
    requires Decode(data, i) == Ok((0x18, i + 1)) && Decode(data, i + 1).Ok?
    ensures i < |data|
    ensures Field(data, i, m) == Ok((m.(submitBlock := Decode(data, i + 1).value.0), Decode(data, i + 1).value.1))
  {
    hide Decode, ReadBytes, Skip;
    assert FieldNum(0x18) == 3;
  }

  lemma ParseVoter(data: Bytes, i: nat, s: Bytes, m: Message)
    requires |data| < TWO63 && At(data, i, StringField(0x12, s))
    ensures Parse(data, i, m) == Parse(data, i + |StringField(0x12, s)|, if s == [] then m else m.(voter := s))
  {
    hide Parse, ReadBytes, Decode, At, Encode, Field;
    if s != [] {
      assert StringField(0x12, s) == [0x12] + (Encode(|s|) + s);
      AtSplit(data, i, [0x12], Encode(|s|) + s);
      TagDecodes(data, i, 0x12);
      StringDecodes(data, i + 1, s);
      FieldVoter(data, i, m);
      ParseStep(data, i, m);
    }
  }

  lemma ParseNumber(data: Bytes, i: nat, v: uint64, m: Message)
    requires |data| < TWO63 && At(data, i, NumberField(0x18, v))
    ensures Parse(data, i, m) == Parse(data, i + |NumberField(0x18, v)|, if v == 0 then m else m.(submitBlock := v))
  {
    hide Parse, ReadBytes, Decode, Encode, Field;
    if v != 0 {
      AtSplit(data, i, [0x18], Encode(v));
      TagDecodes(data, i, 0x18);
      VarintRoundTrip(data, i + 1, v);
      FieldNumber(data, i, m);
      ParseStep(data, i, m);
    }
  }

  /** An encoded message anywhere in the input sets exactly its non-default fields and is read to its end. */
  lemma ParseEncoded(data: Bytes, i: nat, m: Message, n: Message)
    requires |data| < TWO63 && At(data, i, Encoded(n))
    ensures Parse(data, i, m) == Parse(data, i + |Encoded(n)|, Merge(m, n))
  {
    hide Parse, StringField, NumberField, At;
    var a, b, c := StringField(0x0a, n.hash), StringField(0x12, n.voter), NumberField(0x18, n.submitBlock);
    AtSplit(data, i, a + b, c);
    AtSplit(data, i, a, b);
    ParseHash(data, i, n.hash, m);
    ParseVoter(data, i + |a|, n.voter, Merge(m, Message(n.hash, [], 0)));
    ParseNumber(data, i + |a| + |b|, n.submitBlock, Merge(m, Message(n.hash, n.voter, 0)));
  }

  /** Parsing what was printed gives every message back. */
  lemma RoundTrip(m: Message)
    requires Fits(m)
    ensures Parse(Encoded(m), 0, EMPTY) == Ok(m)
  {
    hide Encoded, Parse, At, Size;
    SizeIsLength(m);
    AtParts(Encoded(m), []);
    assert Encoded(m) + [] == Encoded(m);
    ParseEncoded(Encoded(m), 0, EMPTY, m);
    MergeEmpty(m);
    ParseEnd(Encoded(m), m);
  }

  /** Concatenated encodings parse as the messages merged, later fields winning. */
  lemma ConcatenationMerges(m: Message, n: Message)
    requires |Encoded(m)| + |Encoded(n)| < TWO63
    ensures Parse(Encoded(m) + Encoded(n), 0, EMPTY) == Ok(Merge(m, n))
  {
    hide Encoded, Parse, At;
    var x, y := Encoded(m), Encoded(n);
    AtParts(x, y);
    ParseEncoded(x + y, 0, EMPTY, m);
    MergeEmpty(m);
    ParseEncoded(x + y, |x|, m, n);
    ParseEnd(x + y, Merge(m, n));
  }

  lemma AtParts(x: Bytes, y: Bytes)
    ensures At(x + y, 0, x) && At(x + y, |x|, y)
  {
  }

  lemma MergeEmpty(m: Message)
    ensures Merge(EMPTY, m) == m
  {
  }

  lemma ParseEnd(data: Bytes, m: Message)
    ensures Parse(data, |data|, m) == Ok(m)
  {
  }

  /** Different messages have different encodings. */
  lemma EncodingInjective(m: Message, n: Message)
    requires Fits(m) && Fits(n) && Encoded(m) == Encoded(n)
    ensures m == n
  {
    RoundTrip(m);
    RoundTrip(n);
  }
}
