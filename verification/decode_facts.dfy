/**
 What the decoder does with data that `Marshal` would not write: the error
 cases of `Unmarshal`, the shapes `skipNft` accepts and rejects, unknown
 fields, repeated fields and the 32-bit truncation of the field number.
 */
module DecodeFacts {
  import opened Wrappers
  import opened Bytes
  import opened Varint
  import opened Wire
  import opened WireDecode

  /** The loop ends with the error of the first turn that fails. */
  lemma StopsAtFailure(sc: Schema, data: seq<byte>, i: nat, acc: Msg)
    requires Fits(sc, acc) && i < |data| && Step(sc, data, i, acc).Failure?
    ensures DecodeFrom(sc, data, i, acc) == Failure(Step(sc, data, i, acc).error)
  {
    assert DecodeFrom(sc, data, i, acc) == DecodeField(sc, data, i, acc);
  }

  /** A tag byte below 0x80 is read as itself and split into field number and wire type. */
  lemma ReadTagByte(data: seq<byte>, i: nat, fieldNum: nat, wireType: nat)
    requires fieldNum < 16 && wireType < 8 && i < |data| && data[i] == TagByte(fieldNum, wireType)
    ensures Read(data, i) == Success((TagByte(fieldNum, wireType), i + 1))
    ensures DecodeTag(TagByte(fieldNum, wireType)) == Tag(fieldNum, wireType)
  {
    ReadSingle(data, i);
  }

  /** A tag whose varint cannot be read ends the loop with the reader's error. */
  lemma TagReadFails(sc: Schema, data: seq<byte>, i: nat, acc: Msg)
    requires Fits(sc, acc) && i < |data| && Read(data, i).Failure?
    ensures DecodeFrom(sc, data, i, acc) == Failure(Read(data, i).error)
  {
    StopsAtFailure(sc, data, i, acc);
  }

  /** Data that ends within the continuation bytes of the first tag is an unexpected EOF. */
  lemma TruncatedTag(sc: Schema, m: Msg, data: seq<byte>)
    requires Fits(sc, m) && 0 < |data| < 10
    requires forall p | 0 <= p < |data| :: data[p] >= 0x80
    ensures Unmarshal(sc, m, data) == Failure(UnexpectedEOF)
  {
    ReadOutcome(data, 0);
    TagReadFails(sc, data, 0, m);
  }

  /** Ten continuation bytes in a tag make a shift of 70 bits: an integer overflow. */
  lemma OverlongTag(sc: Schema, m: Msg, data: seq<byte>)
    requires Fits(sc, m) && 10 <= |data|
    requires forall p | 0 <= p < 10 :: data[p] >= 0x80
    ensures Unmarshal(sc, m, data) == Failure(IntOverflow)
  {
    ReadOutcome(data, 0);
    TagReadFails(sc, data, 0, m);
  }

  /** An end-group tag is rejected whatever its field number, before the field number is checked. */
  lemma EndGroupRejected(sc: Schema, data: seq<byte>, i: nat, acc: Msg, fieldNum: nat)
    requires Fits(sc, acc) && fieldNum < 16 && i < |data| && data[i] == TagByte(fieldNum, 4)
    ensures DecodeFrom(sc, data, i, acc) == Failure(EndGroupForNonGroup)
  {
    ReadTagByte(data, i, fieldNum, 4);
    StopsAtFailure(sc, data, i, acc);
  }

  /** Field number zero is an illegal tag; the error carries the whole tag value. */
  lemma FieldZeroRejected(sc: Schema, data: seq<byte>, i: nat, acc: Msg, wireType: nat)
    requires Fits(sc, acc) && wireType < 8 && wireType != 4
    requires i < |data| && data[i] == TagByte(0, wireType)
    ensures DecodeFrom(sc, data, i, acc) == Failure(IllegalTag(0, wireType))
  {
    ReadTagByte(data, i, 0, wireType);
    StopsAtFailure(sc, data, i, acc);
  }

  /** A known field must be length-delimited: any other wire type (but end-group) is a wrong wire type. */
  lemma WrongWireTypeRejected(sc: Schema, data: seq<byte>, i: nat, acc: Msg, fieldNum: nat, wireType: nat)
    requires Fits(sc, acc) && 1 <= fieldNum < 16 && (fieldNum <= sc.strings || sc.message == Some(fieldNum))
    requires wireType < 8 && wireType != 2 && wireType != 4
    requires i < |data| && data[i] == TagByte(fieldNum, wireType)
    ensures DecodeFrom(sc, data, i, acc) == Failure(WrongWireType(fieldNum, wireType))
  {
    ReadTagByte(data, i, fieldNum, wireType);
    StopsAtFailure(sc, data, i, acc);
  }

  /** The tag of a known field, then the varint len up to k: the loop turn reads the payload bounds from there. */
  lemma KnownFieldLength(sc: Schema, data: seq<byte>, i: nat, acc: Msg, fieldNum: nat, len: nat, k: nat)
    requires Fits(sc, acc) && 1 <= fieldNum < 16 && (fieldNum <= sc.strings || sc.message == Some(fieldNum))
    requires i < |data| && data[i] == TagByte(fieldNum, 2)
    requires len < Two64 && Read(data, i + 1) == Success((len, k))
    ensures Int64(len) < 0 ==> DecodeFrom(sc, data, i, acc) == Failure(InvalidLength)
    ensures 0 <= Int64(len) && k + len > MaxInt64 ==> DecodeFrom(sc, data, i, acc) == Failure(InvalidLength)
    ensures 0 <= Int64(len) && k + len <= MaxInt64 && k + len > |data| ==> DecodeFrom(sc, data, i, acc) == Failure(UnexpectedEOF)
  {
    ReadTagByte(data, i, fieldNum, 2);
    if Int64(len) < 0 || k + len > MaxInt64 || k + len > |data| {
      StopsAtFailure(sc, data, i, acc);
    }
  }

  /** A record whose length prefix claims more bytes than remain is an unexpected EOF. */
  lemma LengthPastEnd(sc: Schema, data: seq<byte>, i: nat, acc: Msg, fieldNum: nat, len: nat)
    requires Fits(sc, acc) && 1 <= fieldNum < 16 && (fieldNum <= sc.strings || sc.message == Some(fieldNum))
    requires len < Two64 / 2 && i + 1 + |Encode(len)| + len <= MaxInt64
    requires i + 1 + |Encode(len)| <= |data| < i + 1 + |Encode(len)| + len
    requires data[i] == TagByte(fieldNum, 2) && data[i + 1..i + 1 + |Encode(len)|] == Encode(len)
    ensures DecodeFrom(sc, data, i, acc) == Failure(UnexpectedEOF)
  {
    var j := i + 1;
    var k := j + |Encode(len)|;
    LengthPrefixRead(data, j, len, k);
    KnownFieldLength(sc, data, i, acc, fieldNum, len, k);
  }

  /** A length prefix of 2^63 or more is negative as a Go int: an invalid length. */
  lemma NegativeLength(sc: Schema, data: seq<byte>, i: nat, acc: Msg, fieldNum: nat, len: nat)
    requires Fits(sc, acc) && 1 <= fieldNum < 16 && (fieldNum <= sc.strings || sc.message == Some(fieldNum))
    requires Two64 / 2 <= len < Two64
    requires i + 1 + |Encode(len)| <= |data|
    requires data[i] == TagByte(fieldNum, 2) && data[i + 1..i + 1 + |Encode(len)|] == Encode(len)
    ensures DecodeFrom(sc, data, i, acc) == Failure(InvalidLength)
  {
    var j := i + 1;
    var k := j + |Encode(len)|;
    LengthPrefixRead(data, j, len, k);
    KnownFieldLength(sc, data, i, acc, fieldNum, len, k);
  }

  /** `skipNft` of nothing: the loop never runs and the data has ended. */
  lemma SkipEmpty()
    ensures Skip([]) == Failure(UnexpectedEOF)
  {
  }

  /** `skipNft` passes a length-delimited record of any field as one whole field. */
  lemma SkipRecord(fieldNum: nat, p: seq<byte>, rest: seq<byte>)
    requires fieldNum < 16 && |Record(fieldNum, p)| <= MaxInt64
    ensures Skip(Record(fieldNum, p) + rest) == Success(|Record(fieldNum, p)|)
  {
    var r := Record(fieldNum, p);
    var data := r + rest;
    var e := |r|;
    assert data[0..|data|] == data;
    Head(data, 0, data, r, rest, e, |data|);
    var a := 1 + |Encode(|p|)|;
    RecordParts(data, 0, fieldNum, p, a, e);
    ReadTagByte(data, 0, fieldNum, 2);
    LengthPrefixRead(data, 1, |p|, a);
    assert Int64(|p|) == |p|;
  }

  /** `skipNft` passes a varint field: the tag and the varint. */
  lemma SkipVarint(fieldNum: nat, v: uint64, rest: seq<byte>)
    requires fieldNum < 16
    ensures Skip([TagByte(fieldNum, 0)] + Encode(v) + rest) == Success(1 + |Encode(v)|)
  {
    var t := [TagByte(fieldNum, 0)];
    var data := t + Encode(v) + rest;
    var q := 1 + |Encode(v)|;
    ThreeParts(data, 0, data, t, Encode(v), rest, 1, q, |data|);
    ReadTagByte(data, 0, fieldNum, 0);
    ReadEncoding(data, 1, v);
  }

  /**
   `skipNft` passes a fixed 64-bit or 32-bit field by its width alone, without
   looking at the data: the caller finds out if that runs past the end.
   */
  lemma SkipFixed(fieldNum: nat, rest: seq<byte>)
    requires fieldNum < 16
    ensures Skip([TagByte(fieldNum, 1)] + rest) == Success(9)
    ensures Skip([TagByte(fieldNum, 5)] + rest) == Success(5)
  {
    ReadTagByte([TagByte(fieldNum, 1)] + rest, 0, fieldNum, 1);
    ReadTagByte([TagByte(fieldNum, 5)] + rest, 0, fieldNum, 5);
  }

  /**
   Starting the skip loop d levels deeper changes nothing until the extra
   levels are reached: where the loop at depth e would stop, the loop at
   depth e + d carries on at depth d.
   */
  lemma {:induction false} SkipShift(data: seq<byte>, i: nat, e: nat, d: nat, k: nat)
    requires d >= 1 && SkipFrom(data, i, e) == Success(k)
    ensures SkipFrom(data, i, e + d) == SkipFrom(data, k, d)
    decreases |data| - i
  {
    var (next, e') := SkipTurn(data, i, e);
    if e' != 0 {
      SkipTurnShift(data, i, e, d, next, e');
      SkipShift(data, next, e', d, k);
    } else {
      SkipTurnSettles(data, i, e, d, next);
    }
  }

  /** The index and depth after the first turn of a skip loop that succeeds. */
  function SkipTurn(data: seq<byte>, i: nat, e: nat): (r: (nat, nat))
    requires SkipFrom(data, i, e).Success?
    ensures i < |data| && Read(data, i).Success?
    ensures SkipValue(data, Read(data, i).value.1, Read(data, i).value.0 % 8, e) == Success(r)
    ensures i < r.0 <= MaxInt64
    ensures r.1 == 0 ==> SkipFrom(data, i, e) == Success(r.0)
    ensures r.1 != 0 ==> SkipFrom(data, i, e) == SkipFrom(data, r.0, r.1)
  {
    var (wire, j) := Read(data, i).value;
    SkipValue(data, j, wire % 8, e).value
  }

  /** The first turn at depth e + d ends d levels above where it ends at depth e. */
  lemma SkipTurnShift(data: seq<byte>, i: nat, e: nat, d: nat, next: nat, e': nat)
    requires d >= 1 && i < |data| && Read(data, i).Success? && next <= MaxInt64
    requires SkipValue(data, Read(data, i).value.1, Read(data, i).value.0 % 8, e) == Success((next, e'))
    ensures SkipFrom(data, i, e + d) == SkipFrom(data, next, e' + d)
  {
    var rd := Read(data, i);
    SkipValueShift(data, rd.value.1, rd.value.0 % 8, e, d, next, e');
  }

  /** A first turn that closes the groups at depth e leaves the loop at depth e + d at depth d. */
  lemma SkipTurnSettles(data: seq<byte>, i: nat, e: nat, d: nat, next: nat)
    requires d >= 1 && i < |data| && Read(data, i).Success? && next <= MaxInt64
    requires SkipValue(data, Read(data, i).value.1, Read(data, i).value.0 % 8, e) == Success((next, 0))
    ensures SkipFrom(data, i, e + d) == SkipFrom(data, next, d)
  {
    SkipTurnShift(data, i, e, d, next, 0);
  }

  /** One tag at depth e + d moves the depth as it does at depth e, d levels up. */
  lemma SkipValueShift(data: seq<byte>, j: nat, wireType: nat, e: nat, d: nat, next: nat, e': nat)
    requires SkipValue(data, j, wireType, e) == Success((next, e'))
    ensures SkipValue(data, j, wireType, e + d) == Success((next, e' + d))
  {
  }

  /**
   data[i..k] is a run of complete fields: each one is passed whole by a
   skip of its own, the way `skipNft` is called on what is left.
   */
  predicate FieldsAt(data: seq<byte>, i: nat, k: nat)
    decreases k - i
  {
    i == k || (i < k && SkipFrom(data, i, 0).Success? && SkipFrom(data, i, 0).value <= k && FieldsAt(data, SkipFrom(data, i, 0).value, k))
  }

  /** Inside an open group, a run of complete fields is passed without closing it. */
  lemma {:induction false} SkipFields(data: seq<byte>, i: nat, k: nat, d: nat)
    requires d >= 1 && FieldsAt(data, i, k)
    ensures SkipFrom(data, i, d) == SkipFrom(data, k, d)
    decreases k - i
  {
    if i != k {
      SkipShift(data, i, 0, d, SkipFrom(data, i, 0).value);
      SkipFields(data, SkipFrom(data, i, 0).value, k, d);
    }
  }

  /**
   `skipNft` passes a group at index a up to its matching end-group tag at b,
   whenever the body data[a + 1..b] is a run of complete fields. Those fields
   may be groups themselves, so this covers any depth of nesting.
   */
  lemma SkipGroup(data: seq<byte>, a: nat, b: nat, fieldNum: nat)
    requires fieldNum < 16 && a < b < |data| && b < MaxInt64
    requires data[a] == TagByte(fieldNum, 3) && data[b] == TagByte(fieldNum, 4) && FieldsAt(data, a + 1, b)
    ensures SkipFrom(data, a, 0) == Success(b + 1)
    ensures a == 0 ==> Skip(data) == Success(b + 1)
  {
    ReadTagByte(data, a, fieldNum, 3);
    ReadTagByte(data, b, fieldNum, 4);
    SkipFields(data, a + 1, b, 1);
  }

  /** Two nested groups around a one-byte varint: an instance of the general case. */
  lemma SkipNestedGroup(outer: nat, inner: nat, x: byte, rest: seq<byte>)
    requires outer < 16 && inner < 16 && x < 0x80
    ensures Skip([TagByte(outer, 3), TagByte(inner, 3), TagByte(inner, 0), x, TagByte(inner, 4), TagByte(outer, 4)] + rest) == Success(6)
  {
    var data := [TagByte(outer, 3), TagByte(inner, 3), TagByte(inner, 0), x, TagByte(inner, 4), TagByte(outer, 4)] + rest;
    ReadTagByte(data, 2, inner, 0);
    ReadSingle(data, 3);
    assert SkipFrom(data, 2, 0) == Success(4);
    assert FieldsAt(data, 2, 4);
    SkipGroup(data, 1, 4, inner);
    assert FieldsAt(data, 1, 5);
    SkipGroup(data, 0, 5, outer);
  }

  /** A group that the data does not close is an unexpected EOF. */
  lemma SkipUnclosedGroup(fieldNum: nat)
    requires fieldNum < 16
    ensures Skip([TagByte(fieldNum, 3)]) == Failure(UnexpectedEOF)
  {
    ReadTagByte([TagByte(fieldNum, 3)], 0, fieldNum, 3);
    assert SkipFrom([TagByte(fieldNum, 3)], 1, 1) == Failure(UnexpectedEOF);
  }

  /** An end-group tag with no open group is rejected. */
  lemma SkipUnmatchedEndGroup(fieldNum: nat, rest: seq<byte>)
    requires fieldNum < 16
    ensures Skip([TagByte(fieldNum, 4)] + rest) == Failure(UnexpectedEndOfGroup)
  {
    ReadTagByte([TagByte(fieldNum, 4)] + rest, 0, fieldNum, 4);
  }

  /** Wire types 6 and 7 do not exist. */
  lemma SkipIllegalWireType(fieldNum: nat, wireType: nat, rest: seq<byte>)
    requires fieldNum < 16 && 6 <= wireType < 8
    ensures Skip([TagByte(fieldNum, wireType)] + rest) == Failure(IllegalWireType(wireType))
  {
    ReadTagByte([TagByte(fieldNum, wireType)] + rest, 0, fieldNum, wireType);
  }

  /** The field number is a known field of sc. */
  predicate Known(sc: Schema, fieldNum: int) {
    1 <= fieldNum <= sc.strings || sc.message == Some(fieldNum)
  }

  /**
   A turn of the loop over an unknown field leaves the message as it is and
   succeeds exactly when `skipNft` succeeds within the data.
   */
  lemma UnknownFieldKept(sc: Schema, data: seq<byte>, i: nat, acc: Msg, wire: uint64, j: nat)
    requires Fits(sc, acc) && i < |data| <= MaxInt64 && Read(data, i) == Success((wire, j))
    requires DecodeTag(wire).wireType != 4 && DecodeTag(wire).fieldNum > 0 && !Known(sc, DecodeTag(wire).fieldNum)
    ensures var r := Step(sc, data, i, acc);
            && (r.Success? ==> r.value.1 == acc)
            && (r.Success? <==> Skip(data[i..]).Success? && i + Skip(data[i..]).value <= |data|)
            && (r.Success? ==> r.value.0 == i + Skip(data[i..]).value)
  {
  }

  /** The loop passes a length-delimited record of an unknown field without touching the message. */
  lemma UnknownRecordSkipped(sc: Schema, data: seq<byte>, i: nat, acc: Msg, fieldNum: nat, p: seq<byte>, next: nat)
    requires Fits(sc, acc) && 1 <= fieldNum < 16 && !Known(sc, fieldNum)
    requires RecordAt(data, i, fieldNum, p) && next == i + |Record(fieldNum, p)| && |data| <= MaxInt64
    ensures DecodeFrom(sc, data, i, acc) == DecodeFrom(sc, data, next, acc)
  {
    var r := Record(fieldNum, p);
    var rest := data[next..];
    assert data[i..] == r + rest;
    SkipRecord(fieldNum, p, rest);
    ReadTagByte(data, i, fieldNum, 2);
    UnknownFieldKept(sc, data, i, acc, TagByte(fieldNum, 2), i + 1);
    assert DecodeFrom(sc, data, i, acc) == DecodeField(sc, data, i, acc);
  }

  /** A record of an unknown field in front of an encoding changes nothing the decoder makes of it. */
  lemma UnmarshalIgnoresUnknown(sc: Schema, m0: Msg, m: Msg, fieldNum: nat, p: seq<byte>)
    requires Fits(sc, m0) && Fits(sc, m) && 1 <= fieldNum < 16 && !Known(sc, fieldNum)
    requires |Record(fieldNum, p)| + |Encoding(sc, m)| <= MaxInt64
    ensures Unmarshal(sc, m0, Record(fieldNum, p) + Encoding(sc, m)) == Success(MergeInto(sc, m0, m))
  {
    var r := Record(fieldNum, p);
    var w := Encoding(sc, m);
    var data := r + w;
    var next := |r|;
    assert data[0..|data|] == data;
    Head(data, 0, data, r, w, next, |data|);
    Tail(data, 0, data, r, w, next, |data|);
    UnknownRecordSkipped(sc, data, 0, m0, fieldNum, p, next);
    assert data[next..] == w;
    DecodeEncodingAt(sc, data, next, m0, m);
  }

  /** Two records of the same string field: the later one wins. */
  lemma LastWriteWins(sc: Schema, m0: Msg, fieldNum: nat, s1: seq<byte>, s2: seq<byte>)
    requires Fits(sc, m0) && 1 <= fieldNum <= sc.strings
    requires |Record(fieldNum, s1)| + |Record(fieldNum, s2)| <= MaxInt64
    ensures Unmarshal(sc, m0, Record(fieldNum, s1) + Record(fieldNum, s2)) == Success(m0.(strs := m0.strs[fieldNum - 1 := s2]))
  {
    var r1 := Record(fieldNum, s1);
    var r2 := Record(fieldNum, s2);
    var data := r1 + r2;
    var e1 := |r1|;
    var e := |data|;
    assert data[0..e] == data;
    Head(data, 0, data, r1, r2, e1, e);
    Tail(data, 0, data, r1, r2, e1, e);
    var acc1 := m0.(strs := m0.strs[fieldNum - 1 := s1]);
    var acc2 := acc1.(strs := acc1.strs[fieldNum - 1 := s2]);
    DecodeStringRecord(sc, data, 0, m0, fieldNum, s1, e1, acc1);
    DecodeStringRecord(sc, data, e1, acc1, fieldNum, s2, e, acc2);
    DecodeAtEnd(sc, data, acc2);
    assert acc2 == m0.(strs := m0.strs[fieldNum - 1 := s2]);
  }

  /** The tag value of field 2^32 + 1 with wire type 2. */
  const WideTag: nat := (0x1_0000_0000 + 1) * 8 + 2

  lemma WideTagDecodes()
    ensures DecodeTag(WideTag) == Tag(1, 2)
  {
  }

  lemma WideTagRead(data: seq<byte>, e: nat)
    requires e == |Encode(WideTag)| && e <= |data| && data[0..e] == Encode(WideTag)
    ensures Read(data, 0) == Success((WideTag, e))
  {
    ReadEncoding(data, 0, WideTag);
  }

  /**
   The field number is cut to 32 bits (`int32(wire >> 3)`): a tag of field
   2^32 + 1 is taken for field 1.
   */
  lemma FieldNumberTruncated(sc: Schema, m0: Msg, s: seq<byte>)
    requires Fits(sc, m0) && 1 <= sc.strings
    requires |Encode(WideTag)| + |Encode(|s|)| + |s| <= MaxInt64
    ensures Unmarshal(sc, m0, Encode(WideTag) + Encode(|s|) + s) == Success(m0.(strs := m0.strs[0 := s]))
  {
    var t := Encode(WideTag);
    var data := t + Encode(|s|) + s;
    var j := |t|;
    var a := j + |Encode(|s|)|;
    var e := |data|;
    ThreeParts(data, 0, data, t, Encode(|s|), s, j, a, e);
    WideTagRead(data, j);
    WideTagDecodes();
    LengthPrefixRead(data, j, |s|, a);
    ReadBoundsOfLength(data, j, |s|, a, e);
    var acc := m0.(strs := m0.strs[0 := s]);
    StringFieldStep(sc, data, 0, m0, 1, WideTag, j, a, e, acc);
    assert DecodeFrom(sc, data, 0, m0) == DecodeField(sc, data, 0, m0);
    DecodeAtEnd(sc, data, acc);
  }
}
