/**
 The protobuf binary format as the generated code of x/nft uses it: messages
 made of string fields numbered 1..k, each written as a length-delimited
 record (wire type 2) when it is non-empty, optionally followed by one
 embedded message field. The layout of `Class` and `NFT` is a `Schema`; the
 encoder, the size computation, the decoder and `skipNft` are written once
 here for any schema.
 */
module Wire {
  import opened Wrappers
  import opened Bytes
  import opened Varint

  /**
   Field numbers of a message: string fields 1..strings and, optionally, one
   embedded message field numbered above them. Every tag fits in one byte,
   as the generated code writes each tag as a single literal byte.
   */
  datatype Layout = Layout(strings: nat, message: Option<nat>)
  {
    predicate Valid() {
      strings <= 15 && (message.Some? ==> strings < message.value <= 15)
    }
  }

  type Schema = l: Layout | l.Valid() witness Layout(0, None)

  /**
   A decoded message: the string fields in field-number order, and the raw
   encoding of the embedded message if one is present (nil otherwise).
   */
  datatype Msg = Msg(strs: seq<seq<byte>>, embedded: Option<seq<byte>>)

  /** m has the shape sc describes. */
  predicate Fits(sc: Schema, m: Msg) {
    |m.strs| == sc.strings && (sc.message.None? ==> m.embedded.None?)
  }

  /** Every length of m can be written as a 64-bit varint, as every Go length can. */
  predicate Encodable(m: Msg) {
    (forall k | 0 <= k < |m.strs| :: |m.strs[k]| < Two64)
    && (m.embedded.Some? ==> |m.embedded.value| < Two64)
  }

  /** The fresh message that `Unmarshal` starts from: every string empty, no embedded message. */
  function Empty(sc: Schema): (m: Msg)
    ensures Fits(sc, m) && Encodable(m)
    ensures forall k | 0 <= k < |m.strs| :: m.strs[k] == []
    ensures m.embedded.None?
  {
    Msg(seq(sc.strings, _ => []), None)
  }

  /** `(field << 3) | wireType` for a one-byte tag. */
  function TagByte(fieldNum: nat, wireType: nat): (b: byte)
    requires fieldNum < 16 && wireType < 8
    ensures b / 8 == fieldNum && b % 8 == wireType
  {
    fieldNum * 8 + wireType
  }

  /** A length-delimited record: the tag, the varint length, the bytes. */
  function Record(fieldNum: nat, s: seq<byte>): (r: seq<byte>)
    requires fieldNum < 16
  {
    [TagByte(fieldNum, 2)] + Encode(|s|) + s
  }

  /** A string field as written: nothing when empty, else its record. */
  function FieldBytes(fieldNum: nat, s: seq<byte>): (r: seq<byte>)
    requires fieldNum < 16
  {
    if s == [] then [] else Record(fieldNum, s)
  }

  /** The string fields from index k on, in ascending field number, an empty one writing nothing. */
  function FieldsFrom(strs: seq<seq<byte>>, k: nat): (r: seq<byte>)
    requires |strs| <= 15
    decreases |strs| - k
  {
    if k >= |strs| then []
    else FieldBytes(k + 1, strs[k]) + FieldsFrom(strs, k + 1)
  }

  /** The embedded message record, written whenever the message is present, even when empty. */
  function EmbeddedPart(sc: Schema, m: Msg): (r: seq<byte>) {
    if m.embedded.Some? && sc.message.Some? then Record(sc.message.value, m.embedded.value) else []
  }

  /** The reference encoding of a message. */
  function Encoding(sc: Schema, m: Msg): (r: seq<byte>)
    requires Fits(sc, m)
    ensures |r| == Size(sc, m)
  {
    SizeFromIsLength(m.strs, 0);
    FieldsFrom(m.strs, 0) + EmbeddedPart(sc, m)
  }

  /** `1 + l + sovNft(uint64(l))` */
  function RecordSize(l: nat): nat {
    1 + l + Sov(l)
  }

  function SizeFrom(strs: seq<seq<byte>>, k: nat): (n: nat)
    ensures n == 0 <==> forall j | k <= j < |strs| :: strs[j] == []
    decreases |strs| - k
  {
    if k >= |strs| then 0
    else
      var l := |strs[k]|;
      (if l > 0 then RecordSize(l) else 0) + SizeFrom(strs, k + 1)
  }

  /** Nothing of m is written: every string is empty and there is no embedded message record. */
  predicate Blank(sc: Schema, m: Msg) {
    (forall k | 0 <= k < |m.strs| :: m.strs[k] == []) && !(m.embedded.Some? && sc.message.Some?)
  }

  /** `Size`: the string fields in order, then the embedded message if non-nil. */
  function Size(sc: Schema, m: Msg): (n: nat)
    ensures n == 0 <==> Blank(sc, m)
  {
    SizeFrom(m.strs, 0) + (if m.embedded.Some? && sc.message.Some? then RecordSize(|m.embedded.value|) else 0)
  }

  lemma RecordLength(fieldNum: nat, s: seq<byte>)
    requires fieldNum < 16
    ensures |Record(fieldNum, s)| == RecordSize(|s|)
  {
  }

  lemma {:induction false} SizeFromIsLength(strs: seq<seq<byte>>, k: nat)
    requires |strs| <= 15
    ensures SizeFrom(strs, k) == |FieldsFrom(strs, k)|
    decreases |strs| - k
  {
    if k < |strs| {
      SizeFromIsLength(strs, k + 1);
      if strs[k] != [] {
        RecordLength(k + 1, strs[k]);
      }
    }
  }

  /** `Size` is the length of what `Marshal` writes. */
  lemma SizeIsLength(sc: Schema, m: Msg)
    requires Fits(sc, m)
    ensures Size(sc, m) == |Encoding(sc, m)|
  {
    SizeFromIsLength(m.strs, 0);
  }

  lemma {:induction false} FieldsFromShrinks(strs: seq<seq<byte>>, j: nat, k: nat)
    requires |strs| <= 15 && j <= k
    ensures |FieldsFrom(strs, k)| <= |FieldsFrom(strs, j)|
    decreases k - j
  {
    if j < k && j < |strs| {
      FieldsFromShrinks(strs, j + 1, k);
    }
  }

  /** Putting w just below index i, in front of the already written suffix. */
  lemma Prepend(buf: seq<byte>, out: seq<byte>, i: int, j: int, w: seq<byte>, suffix: seq<byte>, out': seq<byte>)
    requires 0 <= j <= i <= |out| && i <= |buf| && j + |w| == i
    requires out == buf[..i] + suffix
    requires out' == out[..j] + w + out[i..]
    ensures out' == buf[..j] + (w + suffix)
  {
    assert out[..j] == buf[..j];
    assert out[i..] == suffix;
  }

  /**
   One block of `MarshalToSizedBuffer`: copy the bytes, write their length
   with `encodeVarintNft` before them, then the tag byte before that.
   */
  method PutRecord(buf: seq<byte>, i: int, fieldNum: nat, s: seq<byte>) returns (out: seq<byte>, j: int)
    requires fieldNum < 16 && |s| < Two64
    requires |Record(fieldNum, s)| <= i <= |buf|
    ensures j == i - |Record(fieldNum, s)|
    ensures out == buf[..j] + Record(fieldNum, s) + buf[i..]
  {
    var start := i - |s|;
    out := buf[..start] + s + buf[i..];
    var base;
    out, base := EncodeInto(out, start, |s|);
    assert out[..base] == buf[..base];
    assert out[start..] == s + buf[i..];
    j := base - 1;
    out := out[j := TagByte(fieldNum, 2)];
    assert out == buf[..j] + Record(fieldNum, s) + buf[i..];
  }

  /** What `MarshalToSizedBuffer` has written once the fields from index k on are done. */
  function Suffix(sc: Schema, m: Msg, k: nat): (r: seq<byte>)
    requires Fits(sc, m)
  {
    FieldsFrom(m.strs, k) + EmbeddedPart(sc, m)
  }

  lemma SuffixStep(sc: Schema, m: Msg, k: nat)
    requires Fits(sc, m) && k < |m.strs|
    ensures Suffix(sc, m, k) == FieldBytes(k + 1, m.strs[k]) + Suffix(sc, m, k + 1)
    ensures |Suffix(sc, m, k)| <= |Encoding(sc, m)|
  {
    Assoc(FieldBytes(k + 1, m.strs[k]), FieldsFrom(m.strs, k + 1), EmbeddedPart(sc, m));
    FieldsFromShrinks(m.strs, 0, k);
  }

  lemma SuffixEnd(sc: Schema, m: Msg)
    requires Fits(sc, m)
    ensures Suffix(sc, m, |m.strs|) == EmbeddedPart(sc, m)
    ensures |EmbeddedPart(sc, m)| <= |Encoding(sc, m)|
    ensures EmbeddedPart(sc, m) == [] ==> Suffix(sc, m, |m.strs|) == []
  {
    assert FieldsFrom(m.strs, |m.strs|) == [];
  }

  lemma EmptyPrefix(a: seq<byte>, b: seq<byte>)
    requires a == []
    ensures a + b == b && (a + b)[..|b|] == b
  {
  }

  lemma Assoc(a: seq<byte>, b: seq<byte>, c: seq<byte>)
    ensures a + b + c == a + (b + c)
  {
  }

  /** One field of the backwards loop: a field goes in front of what is written, unless it is empty. */
  method PutField(fieldNum: nat, s: seq<byte>, rest: seq<byte>, buf: seq<byte>, out: seq<byte>, i: int)
      returns (out': seq<byte>, i': int)
    requires fieldNum < 16 && |s| < Two64
    requires |FieldBytes(fieldNum, s) + rest| <= |buf|
    requires i == |buf| - |rest| && out == buf[..i] + rest
    ensures i' == |buf| - |FieldBytes(fieldNum, s) + rest|
    ensures out' == buf[..i'] + (FieldBytes(fieldNum, s) + rest)
  {
    out', i' := out, i;
    if |s| > 0 {
      out', i' := PutRecord(out, i, fieldNum, s);
      Prepend(buf, out, i, i', Record(fieldNum, s), rest, out');
    } else {
      assert FieldBytes(fieldNum, s) + rest == rest;
    }
  }

  /**
   `MarshalToSizedBuffer`: writes the encoding backwards so that it ends at
   the end of the buffer, the embedded message first, then the string fields
   from the last to the first, and returns how many bytes it wrote. The buffer
   must hold `Size` bytes, as the source's callers size it.
   */
  method MarshalToSizedBuffer(sc: Schema, m: Msg, buf: seq<byte>) returns (out: seq<byte>, n: int)
    requires Fits(sc, m) && Encodable(m)
    requires Size(sc, m) <= |buf|
    ensures n == Size(sc, m)
    ensures out == buf[..|buf| - n] + Encoding(sc, m)
  {
    SizeIsLength(sc, m);
    SuffixEnd(sc, m);
    var i := |buf|;
    out := buf;
    if m.embedded.Some? && sc.message.Some? {
      assert buf == buf[..i] + [];
      out, i := PutRecord(buf, i, sc.message.value, m.embedded.value);
      Prepend(buf, buf, |buf|, i, Record(sc.message.value, m.embedded.value), [], out);
    }
    var k := |m.strs|;
    while k > 0
      invariant 0 <= k <= |m.strs| && 0 <= i <= |buf|
      invariant i == |buf| - |Suffix(sc, m, k)|
      invariant out == buf[..i] + Suffix(sc, m, k)
    {
      k := k - 1;
      SuffixStep(sc, m, k);
      assert |m.strs[k]| < Two64;
      out, i := PutField(k + 1, m.strs[k], Suffix(sc, m, k + 1), buf, out, i);
    }
    n := |buf| - i;
  }

  /** `Marshal`: allocate `Size` bytes and fill them. */
  method Marshal(sc: Schema, m: Msg) returns (r: seq<byte>)
    requires Fits(sc, m) && Encodable(m)
    ensures r == Encoding(sc, m)
    ensures |r| == Size(sc, m)
  {
    var size := Size(sc, m);
    var buf := seq(size, _ => 0);
    var out, n := MarshalToSizedBuffer(sc, m, buf);
    SizeIsLength(sc, m);
    EmptyPrefix(buf[..|buf| - n], Encoding(sc, m));
    r := out[..n];
  }
}

module WireDecode {
  import opened Wrappers
  import opened Bytes
  import opened Varint
  import opened Wire

  /** Go's `int32(x)`: the low 32 bits read as a signed number. */
  function Int32(x: nat): (r: int)
    ensures -0x8000_0000 <= r < 0x8000_0000
    ensures r % 0x1_0000_0000 == x % 0x1_0000_0000
  {
    var low := x % 0x1_0000_0000;
    if low < 0x8000_0000 then low else low - 0x1_0000_0000
  }

  /** A decoded tag: `int32(wire >> 3)` and `int(wire & 0x7)`. */
  datatype Tag = Tag(fieldNum: int, wireType: nat)

  function DecodeTag(wire: uint64): (t: Tag)
    ensures 0 <= t.wireType < 8 && t.wireType == wire % 8
    ensures -0x8000_0000 <= t.fieldNum < 0x8000_0000 && t.fieldNum % 0x1_0000_0000 == (wire / 8) % 0x1_0000_0000
    ensures wire / 8 < 0x8000_0000 ==> t.fieldNum == wire / 8
  {
    Tag(Int32(wire / 8), wire % 8)
  }

  /**
   The length prefix of a length-delimited payload that starts at j, read
   as a signed 64-bit length, and the payload's bounds: a negative length, or
   an end past the largest int, is an invalid length; an end past the data is
   an unexpected EOF.
   */
  function ReadBounds(data: seq<byte>, j: nat): (r: Result<(nat, nat), WireError>)
    ensures r.Success? ==> j < r.value.0 <= r.value.1 <= |data| && r.value.1 <= MaxInt64
  {
    match Read(data, j)
    case Failure(e) => Failure(e)
    case Success((len, k)) =>
      var n := Int64(len);
      if n < 0 then Failure(InvalidLength)
      else if k + n > MaxInt64 then Failure(InvalidLength)
      else if k + n > |data| then Failure(UnexpectedEOF)
      else Success((k, k + n))
  }

  /**
   What `skipNft` does with one tag of the given wire type whose varint ends
   at j: the index after the field's value and the new group depth.
   */
  function SkipValue(data: seq<byte>, j: nat, wireType: nat, depth: nat): (r: Result<(nat, nat), WireError>)
    ensures r.Success? ==> r.value.0 >= j
  {
    if wireType == 0 then
      match Read(data, j)
      case Failure(e) => Failure(e)
      case Success((_, k)) => Success((k, depth))
    else if wireType == 1 then Success((j + 8, depth))
    else if wireType == 2 then
      match Read(data, j)
      case Failure(e) => Failure(e)
      case Success((len, k)) =>
        var n := Int64(len);
        if n < 0 then Failure(InvalidLength) else Success((k + n, depth))
    else if wireType == 3 then Success((j, depth + 1))
    else if wireType == 4 then
      if depth == 0 then Failure(UnexpectedEndOfGroup) else Success((j, depth - 1))
    else if wireType == 5 then Success((j + 4, depth))
    else Failure(IllegalWireType(wireType))
  }

  /**
   The loop of `skipNft` from index i at the given group depth: it stops
   with the index after the first point where the depth is back to zero. An
   index past the largest int (a negative one in Go) is an invalid length;
   data that ends first is an unexpected EOF.
   */
  function SkipFrom(data: seq<byte>, i: nat, depth: nat): (r: Result<nat, WireError>)
    ensures r.Success? ==> i < r.value <= MaxInt64
    decreases |data| - i
  {
    if i >= |data| then Failure(UnexpectedEOF)
    else
      match Read(data, i)
      case Failure(e) => Failure(e)
      case Success((wire, j)) =>
        match SkipValue(data, j, wire % 8, depth)
        case Failure(e) => Failure(e)
        case Success((next, depth')) =>
          if next > MaxInt64 then Failure(InvalidLength)
          else if depth' == 0 then Success(next)
          else SkipFrom(data, next, depth')
  }

  /** `skipNft`: the length of the one field at the start of data. */
  function Skip(data: seq<byte>): (r: Result<nat, WireError>)
    ensures r.Success? ==> 1 <= r.value <= MaxInt64
  {
    SkipFrom(data, 0, 0)
  }

  /** The embedded message after one more occurrence: protobuf merges the occurrences, as decoding their concatenation does. */
  function Merged(prev: Option<seq<byte>>, payload: seq<byte>): (r: seq<byte>)
    ensures prev.None? ==> r == payload
    ensures prev.Some? ==> |r| == |prev.value| + |payload| && IsPrefix(prev.value, r)
    ensures |payload| <= |r| && r[|r| - |payload|..] == payload
  {
    match prev
    case None => payload
    case Some(p) => p + payload
  }

  /** Decoding into prev kept its embedded message as the start of the merged one. */
  predicate Keeps(prev: Msg, next: Msg)
    requires prev.embedded.Some?
  {
    next.embedded.Some? && IsPrefix(prev.embedded.value, next.embedded.value)
  }

  /**
   One turn of the `Unmarshal` loop at index i < |data|: read the tag, reject
   an end-group tag and a field number of zero or less, then decode a known
   field (which must be length-delimited) or skip an unknown one with
   `skipNft`. Gives the index of the next field and the updated message.
   */
  function Step(sc: Schema, data: seq<byte>, i: nat, acc: Msg): (r: Result<(nat, Msg), WireError>)
    requires i < |data| && Fits(sc, acc)
    ensures r.Success? ==> i < r.value.0 <= |data| && Fits(sc, r.value.1)
    ensures r.Success? && acc.embedded.Some? ==> Keeps(acc, r.value.1)
  {
    match Read(data, i)
    case Failure(e) => Failure(e)
    case Success((wire, j)) =>
      var t := DecodeTag(wire);
      if t.wireType == 4 then Failure(EndGroupForNonGroup)
      else if t.fieldNum <= 0 then Failure(IllegalTag(t.fieldNum, wire))
      else if t.fieldNum <= sc.strings || sc.message == Some(t.fieldNum) then
        if t.wireType != 2 then Failure(WrongWireType(t.fieldNum, t.wireType))
        else
          match ReadBounds(data, j)
          case Failure(e) => Failure(e)
          case Success((a, b)) =>
            if t.fieldNum <= sc.strings then Success((b, acc.(strs := acc.strs[t.fieldNum - 1 := data[a..b]])))
            else Success((b, acc.(embedded := Some(Merged(acc.embedded, data[a..b])))))
      else
        // an unknown field: skipNft re-reads it from its tag
        match Skip(data[i..])
        case Failure(e) => Failure(e)
        case Success(n) =>
          if i + n > MaxInt64 then Failure(InvalidLength)
          else if i + n > |data| then Failure(UnexpectedEOF)
          else Success((i + n, acc))
  }

  /** The `Unmarshal` loop from index i, decoding into acc: it runs while fields remain. */
  function DecodeFrom(sc: Schema, data: seq<byte>, i: nat, acc: Msg): (r: Result<Msg, WireError>)
    requires Fits(sc, acc)
    ensures r.Success? ==> Fits(sc, r.value)
    ensures r.Success? && acc.embedded.Some? ==> Keeps(acc, r.value)
    ensures i == |data| ==> r == Success(acc)
    decreases |data| - i, 1
  {
    if i < |data| then DecodeField(sc, data, i, acc)
    else if i > |data| then Failure(UnexpectedEOF)
    else Success(acc)
  }

  /** One turn of the loop at i, then the rest of the loop; the first error ends it. */
  function DecodeField(sc: Schema, data: seq<byte>, i: nat, acc: Msg): (r: Result<Msg, WireError>)
    requires i < |data| && Fits(sc, acc)
    ensures r.Success? ==> Fits(sc, r.value)
    ensures r.Success? && acc.embedded.Some? ==> Keeps(acc, r.value)
    decreases |data| - i, 0
  {
    match Step(sc, data, i, acc)
    case Failure(e) => Failure(e)
    case Success((next, acc')) =>
      var r := DecodeFrom(sc, data, next, acc');
      if r.Success? && acc.embedded.Some? then
        PrefixTransitive(acc.embedded.value, acc'.embedded.value, r.value.embedded.value);
        r
      else r
  }

  /**
   `Unmarshal`: decodes data into m. Like the generated code it does not
   reset m first: a field the data does not carry keeps its value.
   */
  function Unmarshal(sc: Schema, m: Msg, data: seq<byte>): (r: Result<Msg, WireError>)
    requires Fits(sc, m)
    ensures r.Success? ==> Fits(sc, r.value)
    ensures r.Success? && m.embedded.Some? ==> Keeps(m, r.value)
    ensures data == [] ==> r == Success(m)
  {
    DecodeFrom(sc, data, 0, m)
  }

  /** A single byte below 0x80 is a whole varint. */
  lemma ReadSingle(data: seq<byte>, i: nat)
    requires i < |data| && data[i] < 0x80
    ensures Read(data, i) == Success((data[i], i + 1))
  {
  }

  /** The record of field fieldNum with payload s sits at index i of data. */
  predicate RecordAt(data: seq<byte>, i: nat, fieldNum: nat, s: seq<byte>)
    requires fieldNum < 16
  {
    i + |Record(fieldNum, s)| <= |data| && data[i..i + |Record(fieldNum, s)|] == Record(fieldNum, s)
  }

  /** The parts of a record at i: its tag byte, its length prefix up to a, its payload from a to b. */
  lemma RecordParts(data: seq<byte>, i: nat, fieldNum: nat, s: seq<byte>, a: nat, b: nat)
    requires fieldNum < 16 && RecordAt(data, i, fieldNum, s)
    requires a == i + 1 + |Encode(|s|)| && b == i + |Record(fieldNum, s)|
    ensures i < |data| && data[i] == TagByte(fieldNum, 2)
    ensures data[i + 1..a] == Encode(|s|)
    ensures a + |s| == b && b <= |data| && data[a..b] == s
  {
    var t := [TagByte(fieldNum, 2)];
    var j := i + 1;
    ThreeParts(data, i, Record(fieldNum, s), t, Encode(|s|), s, j, a, b);
    assert data[i..j] == t;
  }

  /** A length read as len ending at k gives the payload bounds k and b = k + len when these fit. */
  lemma ReadBoundsOfLength(data: seq<byte>, j: nat, len: nat, k: nat, b: nat)
    requires len < Two64 && Read(data, j) == Success((len, k))
    requires b == k + len && b <= |data| && b <= MaxInt64
    ensures ReadBounds(data, j) == Success((k, b))
  {
    assert Int64(len) == len;
  }

  /** The length prefix of a record, ending at k, is read back as written. */
  lemma LengthPrefixRead(data: seq<byte>, j: nat, len: nat, k: nat)
    requires len < Two64 && k == j + |Encode(len)| && k <= |data| && data[j..k] == Encode(len)
    ensures Read(data, j) == Success((len, k))
  {
    ReadEncoding(data, j, len);
  }

  /** The tag of a record of a field below 16 is read back as the field number and wire type 2. */
  lemma ReadRecordTag(data: seq<byte>, i: nat, fieldNum: nat)
    requires fieldNum < 16 && i < |data| && data[i] == TagByte(fieldNum, 2)
    ensures Read(data, i) == Success((TagByte(fieldNum, 2), i + 1))
    ensures DecodeTag(TagByte(fieldNum, 2)) == Tag(fieldNum, 2)
  {
    ReadSingle(data, i);
  }

  /** The facts about a record at i, with payload between a and b, that one turn of the decode loop reads. */
  lemma RecordRead(data: seq<byte>, i: nat, fieldNum: nat, s: seq<byte>, a: nat, b: nat)
    requires fieldNum < 16 && RecordAt(data, i, fieldNum, s) && i + |Record(fieldNum, s)| <= MaxInt64
    requires a == i + 1 + |Encode(|s|)| && b == i + |Record(fieldNum, s)|
    ensures i < |data| && Read(data, i) == Success((TagByte(fieldNum, 2), i + 1))
    ensures DecodeTag(TagByte(fieldNum, 2)) == Tag(fieldNum, 2)
    ensures ReadBounds(data, i + 1) == Success((a, b))
    ensures a <= b <= |data| && data[a..b] == s
  {
    var j := i + 1;
    RecordParts(data, i, fieldNum, s, a, b);
    ReadRecordTag(data, i, fieldNum);
    LengthPrefixRead(data, j, |s|, a);
    ReadBoundsOfLength(data, j, |s|, a, b);
  }

  /** One turn of the loop over a tag, read up to j, of a known string field with wire type 2 whose payload lies between a and b. */
  lemma StringFieldStep(sc: Schema, data: seq<byte>, i: nat, acc: Msg, fieldNum: nat, wire: uint64, j: nat, a: nat, b: nat, acc': Msg)
    requires Fits(sc, acc) && 1 <= fieldNum <= sc.strings
    requires i < |data| && Read(data, i) == Success((wire, j)) && DecodeTag(wire) == Tag(fieldNum, 2)
    requires ReadBounds(data, j) == Success((a, b))
    requires acc' == acc.(strs := acc.strs[fieldNum - 1 := data[a..b]])
    ensures Step(sc, data, i, acc) == Success((b, acc'))
  {
  }

  /** One turn of the loop over a tag, read up to j, of the embedded message field with wire type 2 whose payload lies between a and b. */
  lemma EmbeddedFieldStep(sc: Schema, data: seq<byte>, i: nat, acc: Msg, wire: uint64, j: nat, a: nat, b: nat, acc': Msg)
    requires Fits(sc, acc) && sc.message.Some?
    requires i < |data| && Read(data, i) == Success((wire, j)) && DecodeTag(wire) == Tag(sc.message.value, 2)
    requires ReadBounds(data, j) == Success((a, b))
    requires acc' == acc.(embedded := Some(Merged(acc.embedded, data[a..b])))
    ensures Step(sc, data, i, acc) == Success((b, acc'))
  {
  }

  /** A record of a known string field sets that field; an earlier value is overwritten. */
  lemma StringRecordStep(sc: Schema, data: seq<byte>, i: nat, acc: Msg, fieldNum: nat, s: seq<byte>)
    requires Fits(sc, acc) && 1 <= fieldNum <= sc.strings
    requires RecordAt(data, i, fieldNum, s) && i + |Record(fieldNum, s)| <= MaxInt64
    ensures Step(sc, data, i, acc) == Success((i + |Record(fieldNum, s)|, acc.(strs := acc.strs[fieldNum - 1 := s])))
  {
    var a := i + 1 + |Encode(|s|)|;
    var b := i + |Record(fieldNum, s)|;
    RecordRead(data, i, fieldNum, s, a, b);
    var j := i + 1;
    StringFieldStep(sc, data, i, acc, fieldNum, TagByte(fieldNum, 2), j, a, b, acc.(strs := acc.strs[fieldNum - 1 := s]));
  }

  /** A record of the embedded message field merges its payload into the message. */
  lemma EmbeddedRecordStep(sc: Schema, data: seq<byte>, i: nat, acc: Msg, p: seq<byte>)
    requires Fits(sc, acc) && sc.message.Some?
    requires RecordAt(data, i, sc.message.value, p) && i + |Record(sc.message.value, p)| <= MaxInt64
    ensures Step(sc, data, i, acc) == Success((i + |Record(sc.message.value, p)|, acc.(embedded := Some(Merged(acc.embedded, p)))))
  {
    var f := sc.message.value;
    var a := i + 1 + |Encode(|p|)|;
    var b := i + |Record(f, p)|;
    RecordRead(data, i, f, p, a, b);
    var j := i + 1;
    EmbeddedFieldStep(sc, data, i, acc, TagByte(f, 2), j, a, b, acc.(embedded := Some(Merged(acc.embedded, p))));
  }

  /** The string fields of prev after the non-empty fields of strs from index k on are applied in order. */
  function Overlay(prev: seq<seq<byte>>, strs: seq<seq<byte>>, k: nat): (r: seq<seq<byte>>)
    requires |prev| == |strs|
    ensures |r| == |strs|
    decreases |strs| - k
  {
    if k >= |strs| then prev
    else Overlay(if strs[k] == [] then prev else prev[k := strs[k]], strs, k + 1)
  }

  /** Each field ends up with the value from strs if that is non-empty and at or after k, else keeps its old value. */
  lemma {:induction false} OverlayElements(prev: seq<seq<byte>>, strs: seq<seq<byte>>, k: nat)
    requires |prev| == |strs|
    ensures forall j | 0 <= j < |strs| ::
              Overlay(prev, strs, k)[j] == if k <= j && strs[j] != [] then strs[j] else prev[j]
    decreases |strs| - k
  {
    if k < |strs| {
      OverlayElements(if strs[k] == [] then prev else prev[k := strs[k]], strs, k + 1);
    }
  }

  /** The decode loop passes a record of a known string field by setting that field. */
  lemma DecodeStringRecord(sc: Schema, data: seq<byte>, i: nat, acc: Msg, fieldNum: nat, s: seq<byte>, next: nat, acc': Msg)
    requires Fits(sc, acc) && 1 <= fieldNum <= sc.strings
    requires RecordAt(data, i, fieldNum, s) && i + |Record(fieldNum, s)| <= MaxInt64
    requires next == i + |Record(fieldNum, s)| && acc' == acc.(strs := acc.strs[fieldNum - 1 := s])
    ensures Fits(sc, acc') && DecodeFrom(sc, data, i, acc) == DecodeFrom(sc, data, next, acc')
  {
    assert DecodeFrom(sc, data, i, acc) == DecodeField(sc, data, i, acc);
    StringRecordStep(sc, data, i, acc, fieldNum, s);
  }

  /** The decode loop passes a record of the embedded message field by merging its payload in. */
  lemma DecodeEmbeddedRecord(sc: Schema, data: seq<byte>, i: nat, acc: Msg, p: seq<byte>, next: nat, acc': Msg)
    requires Fits(sc, acc) && sc.message.Some?
    requires RecordAt(data, i, sc.message.value, p) && i + |Record(sc.message.value, p)| <= MaxInt64
    requires next == i + |Record(sc.message.value, p)| && acc' == acc.(embedded := Some(Merged(acc.embedded, p)))
    ensures Fits(sc, acc') && DecodeFrom(sc, data, i, acc) == DecodeFrom(sc, data, next, acc')
  {
    assert DecodeFrom(sc, data, i, acc) == DecodeField(sc, data, i, acc);
    EmbeddedRecordStep(sc, data, i, acc, p);
  }

  /** The message after the string field at index k of strs is decoded into acc: an empty one is not on the wire. */
  function Apply(acc: Msg, strs: seq<seq<byte>>, k: nat): (r: Msg)
    requires |acc.strs| == |strs| && k < |strs|
  {
    if strs[k] == [] then acc else acc.(strs := acc.strs[k := strs[k]])
  }

  /** The string fields after field k start right after its bytes. */
  lemma FieldsRest(data: seq<byte>, i: nat, strs: seq<seq<byte>>, k: nat, next: nat, n: nat)
    requires |strs| <= 15 && k < |strs|
    requires n == i + |FieldsFrom(strs, k)| && n <= |data| && data[i..n] == FieldsFrom(strs, k)
    requires next == i + |FieldBytes(k + 1, strs[k])|
    ensures n == next + |FieldsFrom(strs, k + 1)| && data[next..n] == FieldsFrom(strs, k + 1)
  {
    var w := FieldsFrom(strs, k);
    var f := FieldBytes(k + 1, strs[k]);
    var rest := FieldsFrom(strs, k + 1);
    Tail(data, i, w, f, rest, next, n);
  }

  /** A non-empty string field k is written as its record at the start of the fields from k on. */
  lemma FieldsHead(data: seq<byte>, i: nat, strs: seq<seq<byte>>, k: nat, n: nat)
    requires |strs| <= 15 && k < |strs| && strs[k] != []
    requires n == i + |FieldsFrom(strs, k)| && n <= |data| && data[i..n] == FieldsFrom(strs, k)
    ensures RecordAt(data, i, k + 1, strs[k])
  {
    var w := FieldsFrom(strs, k);
    var f := Record(k + 1, strs[k]);
    var rest := FieldsFrom(strs, k + 1);
    assert FieldBytes(k + 1, strs[k]) == f;
    var p := i + |f|;
    Head(data, i, w, f, rest, p, n);
  }

  /** One field of the induction below: the decode loop passes field k, whose record sits at i. */
  lemma FieldsStep(sc: Schema, data: seq<byte>, i: nat, strs: seq<seq<byte>>, k: nat, acc: Msg, next: nat, acc': Msg, final: Msg)
    requires Fits(sc, acc) && |strs| == sc.strings && k < |strs|
    requires strs[k] != [] ==> RecordAt(data, i, k + 1, strs[k])
    requires next == i + |FieldBytes(k + 1, strs[k])| && next <= MaxInt64 && acc' == Apply(acc, strs, k)
    requires final == acc.(strs := Overlay(acc.strs, strs, k))
    ensures Fits(sc, acc')
    ensures final == acc'.(strs := Overlay(acc'.strs, strs, k + 1))
    ensures DecodeFrom(sc, data, i, acc) == DecodeFrom(sc, data, next, acc')
  {
    if strs[k] != [] {
      DecodeStringRecord(sc, data, i, acc, k + 1, strs[k], next, acc');
    }
  }

  /**
   Decoding the string fields from index k on, as `Marshal` writes them,
   into acc: the loop reaches the end of them with each non-empty one set.
   */
  lemma {:induction false} DecodeFieldsFrom(sc: Schema, data: seq<byte>, i: nat, strs: seq<seq<byte>>, k: nat, acc: Msg, n: nat, final: Msg)
    requires Fits(sc, acc) && |strs| == sc.strings && k <= |strs|
    requires n == i + |FieldsFrom(strs, k)| && n <= |data| && n <= MaxInt64
    requires data[i..n] == FieldsFrom(strs, k)
    requires final == acc.(strs := Overlay(acc.strs, strs, k))
    ensures Fits(sc, final) && DecodeFrom(sc, data, i, acc) == DecodeFrom(sc, data, n, final)
    decreases |strs| - k
  {
    if k < |strs| {
      var next := i + |FieldBytes(k + 1, strs[k])|;
      var acc' := Apply(acc, strs, k);
      FieldsRest(data, i, strs, k, next, n);
      if strs[k] != [] {
        FieldsHead(data, i, strs, k, n);
      }
      FieldsStep(sc, data, i, strs, k, acc, next, acc', final);
      DecodeFieldsFrom(sc, data, next, strs, k + 1, acc', n, final);
    }
  }

  /** The loop stops with success exactly at the end of the data. */
  lemma DecodeAtEnd(sc: Schema, data: seq<byte>, acc: Msg)
    requires Fits(sc, acc)
    ensures DecodeFrom(sc, data, |data|, acc) == Success(acc)
  {
  }

  /** What `Unmarshal` of the encoding of m makes of the message m0 it decodes into. */
  function MergeInto(sc: Schema, m0: Msg, m: Msg): (r: Msg)
    requires Fits(sc, m0) && Fits(sc, m)
  {
    Msg(Overlay(m0.strs, m.strs, 0),
        if m.embedded.Some? then Some(Merged(m0.embedded, m.embedded.value)) else m0.embedded)
  }

  /**
   Decoding what `Marshal` writes for m, found at the end of data from i on,
   into a message m0: every non-empty string field of m is set, the other
   fields of m0 are kept and an embedded message is merged in.
   */
  lemma DecodeEncodingAt(sc: Schema, data: seq<byte>, i: nat, m0: Msg, m: Msg)
    requires Fits(sc, m0) && Fits(sc, m) && |data| <= MaxInt64
    requires i + |Encoding(sc, m)| == |data| && data[i..] == Encoding(sc, m)
    ensures DecodeFrom(sc, data, i, m0) == Success(MergeInto(sc, m0, m))
  {
    var w := Encoding(sc, m);
    var e := |data|;
    assert data[i..e] == w;
    var fields := FieldsFrom(m.strs, 0);
    var tail := EmbeddedPart(sc, m);
    var n := i + |fields|;
    Head(data, i, w, fields, tail, n, e);
    Tail(data, i, w, fields, tail, n, e);
    var mid := m0.(strs := Overlay(m0.strs, m.strs, 0));
    DecodeFieldsFrom(sc, data, i, m.strs, 0, m0, n, mid);
    var final := MergeInto(sc, m0, m);
    if m.embedded.Some? {
      var p := m.embedded.value;
      assert RecordAt(data, n, sc.message.value, p);
      DecodeEmbeddedRecord(sc, data, n, mid, p, e, final);
    } else {
      assert n == e && mid == final;
    }
    DecodeAtEnd(sc, data, final);
  }

  /**
   Decoding what `Marshal` writes for m into a message m0 sets every
   non-empty string field of m, keeps the other fields of m0, and merges an
   embedded message in. The encoding must fit a Go slice.
   */
  lemma UnmarshalEncoding(sc: Schema, m0: Msg, m: Msg)
    requires Fits(sc, m0) && Fits(sc, m) && |Encoding(sc, m)| <= MaxInt64
    ensures Unmarshal(sc, m0, Encoding(sc, m)) == Success(MergeInto(sc, m0, m))
  {
    var data := Encoding(sc, m);
    assert data[0..] == data;
    DecodeEncodingAt(sc, data, 0, m0, m);
  }

  /** Round trip: `Unmarshal` into a fresh message gives back what was marshalled. */
  lemma RoundTrip(sc: Schema, m: Msg)
    requires Fits(sc, m) && |Encoding(sc, m)| <= MaxInt64
    ensures Unmarshal(sc, Empty(sc), Encoding(sc, m)) == Success(m)
  {
    UnmarshalEncoding(sc, Empty(sc), m);
    OverlayElements(Empty(sc).strs, m.strs, 0);
    assert Overlay(Empty(sc).strs, m.strs, 0) == m.strs;
  }
}
