/**
 The two messages of x/nft: `Class`, six string fields, and `NFT`, four
 string fields and the optional `Data` field number 10. Strings are Go
 strings, that is byte strings. `Data` is a `google.protobuf.Any`; it is
 kept here as the bytes of its encoding, which is what the codec writes and
 reads for it.
 */
module Nft {
  import opened Wrappers
  import opened Bytes
  import opened Varint
  import opened Wire
  import opened WireDecode
  import opened DecodeFacts

  datatype Class = Class(id: seq<byte>, name: seq<byte>, symbol: seq<byte>, description: seq<byte>, uri: seq<byte>, uriHash: seq<byte>)

  datatype NFT = NFT(classId: seq<byte>, id: seq<byte>, uri: seq<byte>, uriHash: seq<byte>, data: Option<seq<byte>>)

  /** `Class`: string fields 1 to 6 and no embedded message. */
  const ClassSchema: Schema := Layout(6, None)

  /** `NFT`: string fields 1 to 4 and the embedded message `Data` at field 10. */
  const NftSchema: Schema := Layout(4, Some(10))

  function ClassMsg(c: Class): (m: Msg)
    ensures Fits(ClassSchema, m) && m.embedded.None?
    ensures m.strs == [c.id, c.name, c.symbol, c.description, c.uri, c.uriHash]
  {
    Msg([c.id, c.name, c.symbol, c.description, c.uri, c.uriHash], None)
  }

  function ClassOf(m: Msg): (c: Class)
    requires Fits(ClassSchema, m)
  {
    Class(m.strs[0], m.strs[1], m.strs[2], m.strs[3], m.strs[4], m.strs[5])
  }

  function NftMsg(t: NFT): (m: Msg)
    ensures Fits(NftSchema, m) && m.embedded == t.data
    ensures m.strs == [t.classId, t.id, t.uri, t.uriHash]
  {
    Msg([t.classId, t.id, t.uri, t.uriHash], t.data)
  }

  function NftOf(m: Msg): (t: NFT)
    requires Fits(NftSchema, m)
  {
    NFT(m.strs[0], m.strs[1], m.strs[2], m.strs[3], m.embedded)
  }

  /** The field-list view of a `Class` and back are inverse. */
  lemma ClassMsgInverse(c: Class, m: Msg)
    ensures ClassOf(ClassMsg(c)) == c
    ensures Fits(ClassSchema, m) ==> ClassMsg(ClassOf(m)) == m
  {
    if Fits(ClassSchema, m) {
      assert ClassMsg(ClassOf(m)).strs == m.strs;
    }
  }

  /** The field-list view of an `NFT` and back are inverse. */
  lemma NftMsgInverse(t: NFT, m: Msg)
    ensures NftOf(NftMsg(t)) == t
    ensures Fits(NftSchema, m) ==> NftMsg(NftOf(m)) == m
  {
    if Fits(NftSchema, m) {
      assert NftMsg(NftOf(m)).strs == m.strs;
    }
  }

  /** `Class.Size` and `NFT.Size` as the generated code adds them up: one term per non-empty field. */
  function FieldSize(s: seq<byte>): nat {
    if |s| > 0 then 1 + |s| + Sov(|s|) else 0
  }

  function ClassSize(c: Class): (n: nat)
    ensures n == 0 <==> c == EmptyClass
  {
    FieldSize(c.id) + FieldSize(c.name) + FieldSize(c.symbol) + FieldSize(c.description) + FieldSize(c.uri) + FieldSize(c.uriHash)
  }

  /** `Data` counts whenever it is non-nil, even when its own size is zero. */
  function NftSize(t: NFT): (n: nat)
    ensures n == 0 <==> t == EmptyNft
  {
    FieldSize(t.classId) + FieldSize(t.id) + FieldSize(t.uri) + FieldSize(t.uriHash)
    + (if t.data.Some? then 1 + |t.data.value| + Sov(|t.data.value|) else 0)
  }

  /** A field as the generated code writes it with a literal tag byte: nothing when empty. */
  function Field(tag: byte, s: seq<byte>): seq<byte> {
    if s == [] then [] else [tag] + Encode(|s|) + s
  }

  /** The literal tag bytes of the generated code are `(field << 3) | 2`. */
  lemma TagBytes()
    ensures TagByte(1, 2) == 0x0a && TagByte(2, 2) == 0x12 && TagByte(3, 2) == 0x1a
    ensures TagByte(4, 2) == 0x22 && TagByte(5, 2) == 0x2a && TagByte(6, 2) == 0x32
    ensures TagByte(10, 2) == 0x52
  {
  }

  /** The bytes `Class.Marshal` writes: nothing at all exactly for the empty class. */
  function ClassEncoding(c: Class): (r: seq<byte>)
    ensures r == [] <==> c == EmptyClass
  {
    var m := ClassMsg(c);
    assert Blank(ClassSchema, m) <==> c == EmptyClass by {
      if Blank(ClassSchema, m) {
        assert m.strs[0] == [] && m.strs[1] == [] && m.strs[2] == [];
        assert m.strs[3] == [] && m.strs[4] == [] && m.strs[5] == [];
      }
    }
    Encoding(ClassSchema, m)
  }

  /** The bytes `NFT.Marshal` writes: nothing at all exactly for the empty NFT with nil `Data`. */
  function NftEncoding(t: NFT): (r: seq<byte>)
    ensures r == [] <==> t == EmptyNft
  {
    var m := NftMsg(t);
    assert Blank(NftSchema, m) <==> t == EmptyNft by {
      if Blank(NftSchema, m) {
        assert m.strs[0] == [] && m.strs[1] == [] && m.strs[2] == [] && m.strs[3] == [];
      }
    }
    Encoding(NftSchema, m)
  }

  lemma FieldIsFieldBytes(fieldNum: nat, s: seq<byte>)
    requires 1 <= fieldNum < 16
    ensures FieldBytes(fieldNum, s) == Field(TagByte(fieldNum, 2), s)
  {
  }

  /** One string field in front of the later ones. */
  lemma FieldsCons(strs: seq<seq<byte>>, k: nat, f: seq<byte>, rest: seq<byte>)
    requires |strs| <= 15 && k < |strs|
    requires f == Field(TagByte(k + 1, 2), strs[k]) && rest == FieldsFrom(strs, k + 1)
    ensures FieldsFrom(strs, k) == f + rest
  {
    FieldIsFieldBytes(k + 1, strs[k]);
  }

  /** One string field's size in front of the later ones'. */
  lemma SizeCons(strs: seq<seq<byte>>, k: nat, x: nat, rest: nat)
    requires k < |strs| && x == FieldSize(strs[k]) && rest == SizeFrom(strs, k + 1)
    ensures SizeFrom(strs, k) == x + rest
  {
  }

  lemma NoTail(w: seq<byte>, e: seq<byte>)
    requires e == []
    ensures w + e == w
  {
  }

  /**
   `Class.Marshal` writes the non-empty fields in ascending field number,
   each as its tag byte 0x0a to 0x32, its varint length and its bytes.
   */
  lemma ClassEncodingLayout(c: Class)
    ensures ClassEncoding(c) ==
      Field(0x0a, c.id) + (Field(0x12, c.name) + (Field(0x1a, c.symbol)
      + (Field(0x22, c.description) + (Field(0x2a, c.uri) + Field(0x32, c.uriHash)))))
  {
    var m := ClassMsg(c);
    var strs := m.strs;
    TagBytes();
    var f1, f2, f3 := Field(0x0a, c.id), Field(0x12, c.name), Field(0x1a, c.symbol);
    var f4, f5, f6 := Field(0x22, c.description), Field(0x2a, c.uri), Field(0x32, c.uriHash);
    var r6: seq<byte> := [];
    assert FieldsFrom(strs, 6) == r6;
    var r5 := f6 + r6;
    FieldsCons(strs, 5, f6, r6);
    NoTail(f6, r6);
    var r4 := f5 + f6;
    FieldsCons(strs, 4, f5, f6);
    var r3 := f4 + r4;
    FieldsCons(strs, 3, f4, r4);
    var r2 := f3 + r3;
    FieldsCons(strs, 2, f3, r3);
    var r1 := f2 + r2;
    FieldsCons(strs, 1, f2, r2);
    FieldsCons(strs, 0, f1, r1);
    NoTail(FieldsFrom(strs, 0), EmbeddedPart(ClassSchema, m));
  }

  /**
   `NFT.Marshal` writes the non-empty string fields with tag bytes 0x0a to
   0x22, then `Data`, when non-nil, with tag byte 0x52.
   */
  lemma NftEncodingLayout(t: NFT)
    ensures NftEncoding(t) ==
      Field(0x0a, t.classId) + (Field(0x12, t.id) + (Field(0x1a, t.uri) + Field(0x22, t.uriHash)))
      + (if t.data.Some? then [0x52] + Encode(|t.data.value|) + t.data.value else [])
  {
    var m := NftMsg(t);
    var strs := m.strs;
    TagBytes();
    var f1, f2, f3, f4 := Field(0x0a, t.classId), Field(0x12, t.id), Field(0x1a, t.uri), Field(0x22, t.uriHash);
    var r4: seq<byte> := [];
    assert FieldsFrom(strs, 4) == r4;
    FieldsCons(strs, 3, f4, r4);
    NoTail(f4, r4);
    var r2 := f3 + f4;
    FieldsCons(strs, 2, f3, f4);
    var r1 := f2 + r2;
    FieldsCons(strs, 1, f2, r2);
    FieldsCons(strs, 0, f1, r1);
  }

  /** `Class.Size` adds up the same terms as the generic field sum. */
  lemma ClassSizeFields(c: Class, strs: seq<seq<byte>>)
    requires strs == [c.id, c.name, c.symbol, c.description, c.uri, c.uriHash]
    ensures ClassSize(c) == SizeFrom(strs, 0)
  {
    var x1, x2, x3 := FieldSize(c.id), FieldSize(c.name), FieldSize(c.symbol);
    var x4, x5, x6 := FieldSize(c.description), FieldSize(c.uri), FieldSize(c.uriHash);
    assert SizeFrom(strs, 6) == 0;
    SizeCons(strs, 5, x6, 0);
    SizeCons(strs, 4, x5, x6);
    SizeCons(strs, 3, x4, x5 + x6);
    SizeCons(strs, 2, x3, x4 + x5 + x6);
    SizeCons(strs, 1, x2, x3 + x4 + x5 + x6);
    SizeCons(strs, 0, x1, x2 + x3 + x4 + x5 + x6);
  }

  /** `Class.Size` is the length of what `Class.Marshal` writes. */
  lemma ClassSizeIsLength(c: Class)
    ensures ClassSize(c) == |ClassEncoding(c)|
  {
    var m := ClassMsg(c);
    SizeIsLength(ClassSchema, m);
    ClassSizeFields(c, m.strs);
  }

  /** `NFT.Size` is the length of what `NFT.Marshal` writes, `Data` included. */
  lemma NftSizeIsLength(t: NFT)
    ensures NftSize(t) == |NftEncoding(t)|
  {
    var m := NftMsg(t);
    SizeIsLength(NftSchema, m);
    NftSizeFields(t, m.strs);
  }

  /** `NFT.Size` adds up the same terms as the generic field sum, then `Data`. */
  lemma NftSizeFields(t: NFT, strs: seq<seq<byte>>)
    requires strs == [t.classId, t.id, t.uri, t.uriHash]
    ensures NftSize(t) == SizeFrom(strs, 0) + (if t.data.Some? then RecordSize(|t.data.value|) else 0)
  {
    var x1, x2, x3, x4 := FieldSize(t.classId), FieldSize(t.id), FieldSize(t.uri), FieldSize(t.uriHash);
    assert SizeFrom(strs, 4) == 0;
    SizeCons(strs, 3, x4, 0);
    SizeCons(strs, 2, x3, x4);
    SizeCons(strs, 1, x2, x3 + x4);
    SizeCons(strs, 0, x1, x2 + x3 + x4);
  }

  /** Every field length fits the 64-bit varint the generated code writes. */
  predicate ClassEncodable(c: Class) {
    |c.id| < Two64 && |c.name| < Two64 && |c.symbol| < Two64
    && |c.description| < Two64 && |c.uri| < Two64 && |c.uriHash| < Two64
  }

  predicate NftEncodable(t: NFT) {
    |t.classId| < Two64 && |t.id| < Two64 && |t.uri| < Two64 && |t.uriHash| < Two64
    && (t.data.Some? ==> |t.data.value| < Two64)
  }

  lemma ClassEncodableMsg(c: Class)
    requires ClassEncodable(c)
    ensures Encodable(ClassMsg(c))
  {
    var m := ClassMsg(c);
    forall k | 0 <= k < |m.strs| ensures |m.strs[k]| < Two64 {
    }
  }

  lemma NftEncodableMsg(t: NFT)
    requires NftEncodable(t)
    ensures Encodable(NftMsg(t))
  {
    var m := NftMsg(t);
    forall k | 0 <= k < |m.strs| ensures |m.strs[k]| < Two64 {
    }
  }

  /** `Class.MarshalToSizedBuffer`: writes the encoding at the end of buf and gives its length. */
  method ClassMarshalToSizedBuffer(c: Class, buf: seq<byte>) returns (out: seq<byte>, n: int)
    requires ClassEncodable(c) && ClassSize(c) <= |buf|
    ensures n == ClassSize(c) && out == buf[..|buf| - n] + ClassEncoding(c)
  {
    ClassEncodableMsg(c);
    ClassSizeIsLength(c);
    SizeIsLength(ClassSchema, ClassMsg(c));
    out, n := MarshalToSizedBuffer(ClassSchema, ClassMsg(c), buf);
  }

  /** `Class.Marshal`: a buffer of `Class.Size` bytes, filled. */
  method ClassMarshal(c: Class) returns (r: seq<byte>)
    requires ClassEncodable(c)
    ensures r == ClassEncoding(c) && |r| == ClassSize(c)
  {
    ClassEncodableMsg(c);
    ClassSizeIsLength(c);
    r := Marshal(ClassSchema, ClassMsg(c));
  }

  /** `NFT.MarshalToSizedBuffer`: writes the encoding at the end of buf and gives its length. */
  method NftMarshalToSizedBuffer(t: NFT, buf: seq<byte>) returns (out: seq<byte>, n: int)
    requires NftEncodable(t) && NftSize(t) <= |buf|
    ensures n == NftSize(t) && out == buf[..|buf| - n] + NftEncoding(t)
  {
    NftEncodableMsg(t);
    NftSizeIsLength(t);
    SizeIsLength(NftSchema, NftMsg(t));
    out, n := MarshalToSizedBuffer(NftSchema, NftMsg(t), buf);
  }

  /** `NFT.Marshal`: a buffer of `NFT.Size` bytes, filled. */
  method NftMarshal(t: NFT) returns (r: seq<byte>)
    requires NftEncodable(t)
    ensures r == NftEncoding(t) && |r| == NftSize(t)
  {
    NftEncodableMsg(t);
    NftSizeIsLength(t);
    r := Marshal(NftSchema, NftMsg(t));
  }

  /** `Class.Unmarshal` into c: the decoded message, or the first error. */
  function ClassUnmarshal(c: Class, data: seq<byte>): (r: Result<Class, WireError>)
    ensures data == [] ==> r == Success(c)
  {
    ClassMsgInverse(c, ClassMsg(c));
    match Unmarshal(ClassSchema, ClassMsg(c), data)
    case Success(m) => Success(ClassOf(m))
    case Failure(e) => Failure(e)
  }

  /** `NFT.Unmarshal` into t: the decoded message, or the first error. */
  function NftUnmarshal(t: NFT, data: seq<byte>): (r: Result<NFT, WireError>)
    ensures data == [] ==> r == Success(t)
    ensures r.Success? && t.data.Some? ==> r.value.data.Some? && IsPrefix(t.data.value, r.value.data.value)
  {
    NftMsgInverse(t, NftMsg(t));
    match Unmarshal(NftSchema, NftMsg(t), data)
    case Success(m) => Success(NftOf(m))
    case Failure(e) => Failure(e)
  }

  /** The fresh `Class{}` and `NFT{}`. */
  const EmptyClass: Class := Class([], [], [], [], [], [])
  const EmptyNft: NFT := NFT([], [], [], [], None)

  /** The value a non-empty field of the encoded message gives, else the old one. */
  function Pick(prev: seq<byte>, s: seq<byte>): seq<byte> {
    if s == [] then prev else s
  }

  /**
   `Class.Unmarshal` of an encoding into c0: the non-empty fields of the
   encoded class overwrite those of c0, the others keep c0's values.
   */
  lemma ClassUnmarshalEncoding(c0: Class, c: Class)
    requires |ClassEncoding(c)| <= MaxInt64
    ensures ClassUnmarshal(c0, ClassEncoding(c)) == Success(Class(
              Pick(c0.id, c.id), Pick(c0.name, c.name), Pick(c0.symbol, c.symbol),
              Pick(c0.description, c.description), Pick(c0.uri, c.uri), Pick(c0.uriHash, c.uriHash)))
  {
    var m0 := ClassMsg(c0);
    var m := ClassMsg(c);
    UnmarshalEncoding(ClassSchema, m0, m);
    OverlayElements(m0.strs, m.strs, 0);
  }

  /** Round trip: `Class.Unmarshal` of `Class.Marshal` into a fresh `Class` gives the class back. */
  lemma ClassRoundTrip(c: Class)
    requires |ClassEncoding(c)| <= MaxInt64
    ensures ClassUnmarshal(EmptyClass, ClassEncoding(c)) == Success(c)
  {
    ClassUnmarshalEncoding(EmptyClass, c);
  }

  /**
   `NFT.Unmarshal` of an encoding into t0: the non-empty string fields
   overwrite, and a `Data` present in the encoding is merged into t0's.
   */
  lemma NftUnmarshalEncoding(t0: NFT, t: NFT)
    requires |NftEncoding(t)| <= MaxInt64
    ensures NftUnmarshal(t0, NftEncoding(t)) == Success(NFT(
              Pick(t0.classId, t.classId), Pick(t0.id, t.id), Pick(t0.uri, t.uri), Pick(t0.uriHash, t.uriHash),
              if t.data.Some? then Some(Merged(t0.data, t.data.value)) else t0.data))
  {
    var m0 := NftMsg(t0);
    var m := NftMsg(t);
    UnmarshalEncoding(NftSchema, m0, m);
    OverlayElements(m0.strs, m.strs, 0);
  }

  /** Round trip: `NFT.Unmarshal` of `NFT.Marshal` into a fresh `NFT` gives the NFT back, `Data` included. */
  lemma NftRoundTrip(t: NFT)
    requires |NftEncoding(t)| <= MaxInt64
    ensures NftUnmarshal(EmptyNft, NftEncoding(t)) == Success(t)
  {
    NftUnmarshalEncoding(EmptyNft, t);
  }

  /** `Class` knows fields 1 to 6 only; `NFT` knows 1 to 4 and 10. */
  lemma KnownFields(fieldNum: int)
    ensures Known(ClassSchema, fieldNum) <==> 1 <= fieldNum <= 6
    ensures Known(NftSchema, fieldNum) <==> 1 <= fieldNum <= 4 || fieldNum == 10
  {
  }
}
