# Typed table, row getter and NFT wire codec

A Dafny model of three pieces of a Cosmos SDK code base:

- **The typed table** (`store/table/table.go`). Rows of one model type live under a one-byte prefix in an ordered key-value store.
  - `Create`, `Update` and `Delete` run a fixed pipeline: type check, `ValidateBasic`, load of the old value where needed, the raw write or delete, then the registered interceptors in order.
  - `Has`, `GetOne`, `PrefixScan` and `ReversePrefixScan` are the reads.
  - The scan cursors resolve each key they visit through the row getter.
- **The row getter and type guard** (`x/group/internal/orm/types.go`).
  - `NewTypeSafeRowGetter` rejects an empty row ID, then a destination of the wrong type. Then it probes the keys that start with the row ID under the namespace and decodes the first.
  - `assertCorrectType` is the runtime type guard.
  - The package registers eight errors with distinct codes.
- **The protobuf codec of `Class` and `NFT`** (`x/nft/nft.pb.go`).
  - Varint size, write and read.
  - `Size`, `Marshal`/`MarshalToSizedBuffer` and `Unmarshal`.
  - `skipNft`, which skips unknown fields.

## Modelling choices

- **Store.** The store is a `map<seq<byte>, seq<byte>>`. Its iterators are the ascending or descending listing of its keys within the bounds.
- **Functions instead of mutation.** Table operations are pure functions that return an `Effect`: the store afterwards plus the error, if any. A failing interceptor keeps the writes it made, as in Go.
- **Interceptors** are total functions from the store, row ID and values to an `Effect`. They run through one `Chain`, which stops at the first error and tags it with the interceptor's position.
- **Reflection** becomes a `DynType`: a type name and an is-pointer flag.
- **`ValidateBasic`** is a field of the object (`NotValidateable` or the answer it gives).
- **The table's codec** is a pair of caller-supplied functions. Its properties enter only as lemma hypotheses (`RoundTrips`, `NeverNotFound`).
- **The wire codec** is modelled generically (`Wire`, `WireDecode`) over a schema. The schema has string fields 1..n and an optional embedded message field, and every tag fits one byte.
  - `Class` is `Layout(6, None)` and `NFT` is `Layout(4, Some(10))` (`Nft`).
  - The decoder follows the generated loop in detail:
    - 64-bit tag accumulation and overflow after ten bytes;
    - `int32` truncation of the field number;
    - `int` reading of lengths (negative and overflowing ends);
    - the order of the end-group, illegal-tag and wrong-wire-type checks;
    - skipping of unknown fields with their bound checks.
- **`Unmarshal` merges.** Like the generated code, it does not reset the message it decodes into. The model's `Unmarshal` therefore takes the starting message.
- **`NFT.Data`** is a `google.protobuf.Any`. It is kept as the bytes of its encoding. A repeated occurrence appends, which is what protobuf merging of the decoded values amounts to.

### Where the code and its design description differ

The model follows the code:

- The row getter and `Has` use a prefix probe, not an exact lookup. As a result:
  - `GetOne`, `Update` and `Delete` can find a row through a longer key (`Orm.GetFindsLongerKey`).
  - `Update` can then create the exact key (`Table.UpdateViaLongerKey`).
  - `Delete` then removes nothing (`Table.DeleteViaLongerKey`).
  - `Has` can be true with no row stored (`Table.HasStoredOrLonger`).
- `Create` has no empty-row-ID check of its own (`Table.EmptyRowID`). Whether the write then succeeds rests on the store (see "## Left out").
- `PrefixScan`/`ReversePrefixScan` iterate the store they are given, not the table's namespace. Each yielded key is then looked up under the prefix (`Table.ScanKeysNotUnprefixed`).
- `Has` with an empty row ID is true when anything is stored under the prefix. The description asks for false or a panic.

## Model

| member | source | states |
|---|---|---|
| Orm.Code | x/group/internal/orm/types.go:16-27 | every registered error has a code between 100 and 114 |
| Orm.KindOfCode | x/group/internal/orm/types.go:16-27 | each registered error is recovered from its code |
| Orm.CodesDistinct | x/group/internal/orm/types.go:18-27 | two registered errors share a code exactly when they are the same error |
| Orm.KindOf | x/group/internal/orm/types.go:16-27 | a code gives back the error registered under it, and nothing when no registered error has that code |
| Orm.RowBytes | x/group/internal/orm/types.go:33-35 | `RowID.Bytes` gives the same bytes, element by element |
| Orm.AssertCorrectType | x/group/internal/orm/types.go:91-100 | success exactly when the object is a pointer to the model type; otherwise the type error |
| Orm.NewTypeSafeRowGetter | x/group/internal/orm/types.go:72 | the getter is bound to the given namespace prefix, model type and codec |
| Orm.PrefixRange | x/group/internal/orm/types.go:81-82 | the probed range is exactly the stored keys that start with the namespaced row ID |
| Orm.Get | x/group/internal/orm/types.go:72-89 | an empty row ID is an argument error, then a wrong destination a type error; otherwise not-found when no key under the namespace starts with the row ID, and else the decode of the value of such a key |
| Orm.GetRejectsEmptyKey | x/group/internal/orm/types.go:74-76 | an empty row ID gives the argument error whatever the store and destination |
| Orm.GetRejectsWrongType | x/group/internal/orm/types.go:77-79 | a non-pointer or wrong-type destination gives the type error whatever the store |
| Orm.GetNotFoundIff | x/group/internal/orm/types.go:81-86 | not-found is returned exactly when no stored key starts with the namespaced row ID |
| Orm.GetFirstInRange | x/group/internal/orm/types.go:82-87 | otherwise the result is the decode of the value at the smallest such key |
| Orm.GetExactKey | x/group/internal/orm/types.go:81-87 | when the exact key is stored, its value is the one decoded |
| Orm.GetIsLocal | x/group/internal/orm/types.go:81-87 | stores that agree on the keys starting with the row ID give the same answer |
| Orm.GetFindsLongerKey | x/group/internal/orm/types.go:82-87 | with only a longer key stored, its value is found and decoded |
| Table.ChainFrom | store/table/table.go:106-110 | an error reported by the loop names a position within the interceptor list |
| Table.Chain | store/table/table.go:106-110 | an error from the loop is an interceptor failure naming a position in the list |
| Table.ChainAppend | store/table/table.go:106-110 | running a + b runs a, and b only when all of a succeeded, on the store a left |
| Table.ChainRunsInOrder | store/table/table.go:139-143 | the interceptor loop equals the in-order left fold that stops at the first error |
| Table.StopsAtFirstError | store/table/table.go:170-174 | when interceptor i is the first to fail, its error and store are the result; later ones do not matter |
| Table.SaveSteps | store/table/table.go:107 | each step calls its interceptor with the row ID, new value and old value |
| Table.DeleteSteps | store/table/table.go:171 | each step calls its delete interceptor with the row ID and deleted value |
| Table.AssertValid | store/table/table.go:147-154 | fails exactly when the object implements `ValidateBasic` and it fails, with that error |
| Table.NewTableBuilder | store/table/table.go:26-43 | panics on a nil model or a nil index-key codec, model first; otherwise an empty builder of the model's type |
| Table.AddAfterSaveInterceptor | store/table/table.go:66-68 | appends the interceptor after the earlier ones; nothing else changes |
| Table.AddAfterDeleteInterceptor | store/table/table.go:71-73 | appends the interceptor after the earlier ones; nothing else changes |
| Table.AddSaveAll | store/table/table.go:66-68 | registering several save interceptors adds exactly that many and changes nothing else |
| Table.AddDeleteAll | store/table/table.go:71-73 | registering several delete interceptors adds exactly that many and changes nothing else |
| Table.AddSaveAllKeepsOrder | store/table/table.go:66-68 | save interceptors registered one by one are kept in registration order |
| Table.AddDeleteAllKeepsOrder | store/table/table.go:71-73 | delete interceptors registered one by one are kept in registration order |
| Table.Build | store/table/table.go:55-63 | the table has the builder's prefix, model, codec and both lists unchanged |
| Table.BuildKeepsRegistration | store/table/table.go:26-73 | a fresh builder with interceptors registered one by one builds a table holding exactly them, in order |
| Table.BuilderRowGetter | store/table/table.go:50-52 | the builder's row getter is the built table's |
| Table.TableKey | store/table/table.go:100-105 | a row's store key is the prefix byte followed by the row ID |
| Table.NewModel | store/table/table.go:128 | the destination made for the old value always passes the type guard |
| Table.GetOne | store/table/table.go:186-191 | an empty row ID is an argument error and a wrong destination a type error; otherwise not-found whenever no key under the table prefix starts with the row ID, for every codec, and exactly then when the codec never reports not-found itself; a row found is the decode of the smallest such key |
| Table.Has | store/table/table.go:179-184 | true exactly when some stored key starts with the prefixed row ID |
| Table.Create | store/table/table.go:93-112 | a type error comes back with the store untouched, and only an interceptor failure leaves a change behind; without interceptors it succeeds exactly when the type check, validation and encoding do, stores the encoding under the row key and keeps every other key |
| Table.Update | store/table/table.go:119-145 | never writes a row that is not there: with no key under the row ID the store is unchanged and an error returned; only an interceptor failure leaves a change behind; without interceptors a success stores the new encoding under the row key and keeps every other key |
| Table.Delete | store/table/table.go:161-176 | with no key under the row ID the store is unchanged and an error returned; only an interceptor failure leaves a change behind; without interceptors a success removes the row key and keeps every other key |
| Table.CreateRejectsEarly | store/table/table.go:94-99 | a failed type check or validation leaves the store unchanged, runs no interceptor, and the type error wins |
| Table.CreateWrites | store/table/table.go:100-111 | otherwise the encoding is written under the prefixed key and the save interceptors run on that store with a nil old value |
| Table.CreateOverwrites | store/table/table.go:105 | what the key held before does not matter: an existing row is overwritten |
| Table.CreateThenGetOne | store/table/table.go:93-111 | a created row is read back by `GetOne` when the codec round-trips |
| Table.CreateNoRollback | store/table/table.go:105-110 | a failing first interceptor leaves the write in place and reports interceptor 0 |
| Table.UpdateLoadFails | store/table/table.go:130-132 | a failed load of the old value returns its error, no write, no interceptor |
| Table.UpdateMissingRow | store/table/table.go:128-132 | with no key under the row ID, `Update` returns not-found and changes nothing |
| Table.UpdateWrites | store/table/table.go:133-143 | otherwise the row is overwritten and the loaded old value goes to every interceptor |
| Table.UpdateViaLongerKey | store/table/table.go:128-138 | a longer key lets `Update` succeed, and it creates the exact key |
| Table.UpdateThenGetOne | store/table/table.go:119-145 | after an update in a table without save interceptors, `GetOne` reads back the new value when the codec round-trips |
| Table.DeleteLoadFails | store/table/table.go:164-167 | a failed load leaves the store unchanged |
| Table.DeleteRemovesExactKey | store/table/table.go:164-175 | otherwise exactly the prefixed key is removed, all else kept, and the loaded value goes to the delete interceptors |
| Table.DeleteViaLongerKey | store/table/table.go:164-168 | with only a longer key stored, `Delete` succeeds and removes nothing |
| Table.CreateThenDelete | store/table/table.go:93-184 | a created row that is then deleted is gone for `Has` |
| Table.EmptyRowID | store/table/table.go:93-176 | an empty row ID is an argument error for `GetOne`, `Update` and `Delete` with the store unchanged; `Create` has no check of its own and, over a store that accepts any key, writes it under the bare prefix |
| Table.HasIffFound | store/table/table.go:179-191 | `Has` is true exactly when `GetOne` does not report not-found |
| Table.HasStoredOrLonger | store/table/table.go:179-184 | `Has` is true for a stored row and also when only a longer key exists |
| Table.Domain | store/table/table.go:215 | the scanned keys are the stored keys from start (inclusive) to end (exclusive), an absent bound not limiting |
| Table.PrefixScan | store/table/table.go:209-217 | an argument error and the invalid iterator exactly when both bounds are given and start is not before end; otherwise the in-range keys, strictly ascending |
| Table.ReversePrefixScan | store/table/table.go:228-236 | the same check; otherwise the in-range keys, strictly descending |
| Table.ScansMirror | store/table/table.go:209-236 | the reverse scan visits the forward scan's keys in reverse order |
| Table.LoadNext | store/table/table.go:244-251 | an exhausted cursor gives done and does not move; otherwise the current key, one step on, and the getter's answer for that key |
| Table.Drain | store/table/table.go:244-251 | calling `LoadNext` until no row ID yields every remaining key in order, each with its getter answer |
| Table.ScanAll | store/table/table.go:209-251 | a forward scan read to the end yields exactly the in-range keys, ascending, each looked up under the table prefix |
| Table.ScanKeysNotUnprefixed | store/table/table.go:213-250 | a scanned key is yielded with its prefix and looked up with the prefix added again |
| Varint.EncodeContinuationBits | x/nft/nft.pb.go:361-366 | every byte but the last has bit 0x80 set, the last does not, and one byte exactly below 0x80 |
| Varint.Encode | x/nft/nft.pb.go:358-368 | the reference varint is never empty; its byte layout is stated by `EncodeContinuationBits` and its length by `EncodeDigitCount` |
| Varint.EncodeDigitCount | x/nft/nft.pb.go:358-368 | the encoding of v has exactly as many bytes as v has base-128 digits |
| Varint.Sov | x/nft/nft.pb.go:431-433 | `sovNft(x)` is the number of varint digits of x, at least 1 and at most 10 for a 64-bit x |
| Varint.SovIsDigitCount | x/nft/nft.pb.go:431-433 | the bit-length formula gives the digit count of the reference encoding |
| Varint.DigitsFromBitLen | x/nft/nft.pb.go:432 | ceil(bit length / 7) is the number of base-128 digits of a positive number |
| Varint.Int64 | x/nft/nft.pb.go:435 | Go's `int64(x)`: the value in the signed 64-bit range that is congruent to x modulo 2^64 |
| Varint.Soz | x/nft/nft.pb.go:434-436 | `sozNft(x)` is the varint size of the zig-zag image of `int64(x)`, between 1 and 10 |
| Varint.EncodeInto | x/nft/nft.pb.go:358-368 | writes exactly `sovNft(v)` bytes ending just before the offset, returns their start, leaves the rest of the buffer alone |
| Varint.ReadFrom | x/nft/nft.pb.go:442-456 | the decode loop ends within ten bytes of its start, or fails with unexpected EOF or overflow |
| Varint.Read | x/nft/nft.pb.go:442-456 | the varint at i ends within ten bytes and inside the data, or the read fails with unexpected EOF or overflow |
| Varint.ReadOutcome | x/nft/nft.pb.go:442-456 | it stops at the first byte below 0x80; EOF exactly when the data ends first; overflow exactly when ten continuation bytes come first |
| Varint.ReadFromEncoding | x/nft/nft.pb.go:471-484 | the loop meeting an encoding of v reads v and stops at its end |
| Varint.ReadEncoding | x/nft/nft.pb.go:470-484 | reading what `encodeVarintNft` writes gives back v and moves past `sovNft(v)` bytes |
| Wire.Empty | x/nft/nft.pb.go:437 | the fresh message has every string empty and no embedded message |
| Wire.TagByte | x/nft/nft.pb.go:250-255 | a one-byte tag splits back into field number and wire type |
| Wire.RecordLength | x/nft/nft.pb.go:377 | a record is `1 + l + sovNft(l)` bytes long |
| Wire.Size | x/nft/nft.pb.go:369-429 | the size is zero exactly when nothing of the message is written: every string empty and no embedded message |
| Wire.Encoding | x/nft/nft.pb.go:245-356 | the length of the encoding is `Size` |
| Wire.SizeFromIsLength | x/nft/nft.pb.go:375-398 | the size of the string fields is the length of their encoding |
| Wire.SizeIsLength | x/nft/nft.pb.go:369-429 | `Size` is the length of what `Marshal` writes |
| Wire.PutRecord | x/nft/nft.pb.go:250-255 | one block writes the record just below the index and returns its start |
| Wire.PutField | x/nft/nft.pb.go:250-291 | a non-empty field goes in front of what is written; an empty one writes nothing |
| Wire.MarshalToSizedBuffer | x/nft/nft.pb.go:245-293 | writes the encoding so that it ends at the buffer's end and returns its length, which is `Size` |
| Wire.Marshal | x/nft/nft.pb.go:230-238 | gives exactly the encoding, of `Size` bytes |
| WireDecode.Int32 | x/nft/nft.pb.go:457 | Go's `int32(x)`: the signed value with x's low 32 bits |
| WireDecode.DecodeTag | x/nft/nft.pb.go:457-458 | the wire type is the low three bits of the tag; the field number is the rest truncated to `int32`, equal to it when it fits |
| WireDecode.ReadBounds | x/nft/nft.pb.go:470-495 | payload bounds lie within the data and below the largest int |
| WireDecode.SkipFrom | x/nft/nft.pb.go:893-970 | the skip loop ends past its start and below the largest int, or fails |
| WireDecode.Skip | x/nft/nft.pb.go:893-970 | `skipNft` gives a positive length or an error |
| WireDecode.Merged | x/nft/nft.pb.go:865-870 | the earlier occurrences of the embedded message followed by the new payload, nothing of either lost |
| WireDecode.Step | x/nft/nft.pb.go:440-671 | one loop turn moves forward within the data and keeps the message's shape |
| WireDecode.DecodeFrom | x/nft/nft.pb.go:440-677 | at the end of the data the loop succeeds with the message as it is; a decoded message keeps the shape and keeps its starting embedded message as the start of the merged one |
| WireDecode.DecodeField | x/nft/nft.pb.go:440-672 | one field and the rest of the loop keep the shape and never drop embedded bytes already merged |
| WireDecode.Unmarshal | x/nft/nft.pb.go:437-678 | a successful decode keeps the message's shape and keeps its embedded message as the start of the merged one; decoding no bytes leaves the message as it is |
| WireDecode.ReadRecordTag | x/nft/nft.pb.go:442-458 | a record's tag byte is read as field number and wire type 2 |
| WireDecode.ReadBoundsOfLength | x/nft/nft.pb.go:470-495 | a length that fits gives payload bounds from the end of the length to length bytes later |
| WireDecode.RecordRead | x/nft/nft.pb.go:440-497 | the tag, the bounds and the payload of a record as the loop reads them |
| WireDecode.StringFieldStep | x/nft/nft.pb.go:466-497 | a known string field with wire type 2 is set to its payload and the loop moves past it |
| WireDecode.EmbeddedFieldStep | x/nft/nft.pb.go:836-871 | the embedded message field merges its payload and the loop moves past it |
| WireDecode.StringRecordStep | x/nft/nft.pb.go:466-497 | a record of a known string field overwrites that field |
| WireDecode.EmbeddedRecordStep | x/nft/nft.pb.go:836-871 | a record of the embedded field merges its payload in |
| WireDecode.OverlayElements | x/nft/nft.pb.go:496-497 | each field takes the encoded value when non-empty and keeps its old one otherwise |
| WireDecode.DecodeFieldsFrom | x/nft/nft.pb.go:440-672 | the loop passes the encoded string fields, setting each non-empty one |
| WireDecode.DecodeAtEnd | x/nft/nft.pb.go:674-677 | at the end of the data the loop stops with success |
| WireDecode.DecodeEncodingAt | x/nft/nft.pb.go:437-678 | decoding an encoding that ends the data gives the merged message |
| WireDecode.UnmarshalEncoding | x/nft/nft.pb.go:437-678 | `Unmarshal` of an encoding sets its non-empty fields, keeps the others, merges the embedded message |
| WireDecode.RoundTrip | x/nft/nft.pb.go:437-678 | `Unmarshal` of `Marshal(m)` into a fresh message gives m |
| DecodeFacts.StopsAtFailure | x/nft/nft.pb.go:440-671 | the first failing loop turn's error is the result |
| DecodeFacts.TagReadFails | x/nft/nft.pb.go:443-456 | an unreadable tag varint ends decoding with the reader's error |
| DecodeFacts.TruncatedTag | x/nft/nft.pb.go:447-449 | data ending inside the first tag's continuation bytes is an unexpected EOF |
| DecodeFacts.OverlongTag | x/nft/nft.pb.go:444-446 | ten continuation bytes in a tag are an integer overflow |
| DecodeFacts.EndGroupRejected | x/nft/nft.pb.go:459-461 | wire type 4 is rejected whatever the field number |
| DecodeFacts.FieldZeroRejected | x/nft/nft.pb.go:462-464 | field number 0 is an illegal tag, reported with the whole tag value |
| DecodeFacts.WrongWireTypeRejected | x/nft/nft.pb.go:467-469 | a known field with a wire type other than 2 is rejected |
| DecodeFacts.KnownFieldLength | x/nft/nft.pb.go:485-495 | a negative length or an end past the largest int is an invalid length; an end past the data is an unexpected EOF |
| DecodeFacts.LengthPastEnd | x/nft/nft.pb.go:493-495 | a length prefix claiming more bytes than remain is an unexpected EOF |
| DecodeFacts.NegativeLength | x/nft/nft.pb.go:485-488 | a length prefix of 2^63 or more is an invalid length |
| DecodeFacts.SkipEmpty | x/nft/nft.pb.go:893-969 | `skipNft` of nothing is an unexpected EOF |
| DecodeFacts.SkipRecord | x/nft/nft.pb.go:930-949 | a length-delimited record is skipped whole |
| DecodeFacts.SkipVarint | x/nft/nft.pb.go:915-927 | a varint field is skipped as tag plus varint |
| DecodeFacts.SkipFixed | x/nft/nft.pb.go:928-958 | fixed 64- and 32-bit fields are skipped by width alone |
| DecodeFacts.SkipShift | x/nft/nft.pb.go:950-967 | the skip loop started d levels deeper runs the same turns, and where the shallower loop would stop it carries on at depth d |
| DecodeFacts.SkipFields | x/nft/nft.pb.go:950-967 | inside an open group, a run of complete fields is passed without closing the group |
| DecodeFacts.SkipGroup | x/nft/nft.pb.go:950-967 | a group whose body is any run of complete fields, groups included, is skipped exactly up to its matching end-group tag, at any depth of nesting |
| DecodeFacts.SkipNestedGroup | x/nft/nft.pb.go:950-967 | a group nested in a group around a varint is skipped as a whole, an instance of the general case |
| DecodeFacts.SkipUnclosedGroup | x/nft/nft.pb.go:950-969 | an unclosed group is an unexpected EOF |
| DecodeFacts.SkipUnmatchedEndGroup | x/nft/nft.pb.go:952-955 | an end-group with no open group is rejected |
| DecodeFacts.SkipIllegalWireType | x/nft/nft.pb.go:959-960 | wire types 6 and 7 are rejected |
| DecodeFacts.UnknownFieldKept | x/nft/nft.pb.go:658-670 | an unknown field leaves the message as it is and succeeds exactly when `skipNft` succeeds within the data |
| DecodeFacts.UnknownRecordSkipped | x/nft/nft.pb.go:658-670 | the loop passes a record of an unknown field without touching the message |
| DecodeFacts.UnmarshalIgnoresUnknown | x/nft/nft.pb.go:658-670 | an unknown record in front of an encoding changes nothing in what is decoded |
| DecodeFacts.LastWriteWins | x/nft/nft.pb.go:496-529 | of two records of the same string field, the later one wins |
| DecodeFacts.FieldNumberTruncated | x/nft/nft.pb.go:457 | a tag of field 2^32 + 1 is taken for field 1 |
| Nft.ClassMsgInverse | x/nft/nft.pb.go:27-40 | a `Class` and its field list convert back and forth losslessly |
| Nft.NftMsgInverse | x/nft/nft.pb.go:118-129 | an `NFT` and its field list convert back and forth losslessly |
| Nft.TagBytes | x/nft/nft.pb.go:250-325 | the literal tag bytes 0x0a to 0x32 and 0x52 are `(field << 3) \| 2` |
| Nft.ClassSize | x/nft/nft.pb.go:369-400 | `Class.Size` is zero exactly for the empty class |
| Nft.NftSize | x/nft/nft.pb.go:402-429 | `NFT.Size` is zero exactly for the empty NFT with nil `Data`; a non-nil but empty `Data` still counts |
| Nft.ClassEncoding | x/nft/nft.pb.go:245-293 | `Class.Marshal` writes nothing exactly for the empty class |
| Nft.NftEncoding | x/nft/nft.pb.go:310-356 | `NFT.Marshal` writes nothing exactly for the empty NFT with nil `Data` |
| Nft.ClassEncodingLayout | x/nft/nft.pb.go:245-292 | `Class.Marshal` writes the non-empty fields in ascending field number with tags 0x0a to 0x32 |
| Nft.NftEncodingLayout | x/nft/nft.pb.go:310-356 | `NFT.Marshal` writes its non-empty string fields, then `Data` with tag 0x52 when non-nil |
| Nft.ClassSizeFields | x/nft/nft.pb.go:369-400 | `Class.Size` adds one term per non-empty field |
| Nft.ClassSizeIsLength | x/nft/nft.pb.go:369-400 | `Class.Size` is the length of `Class.Marshal` |
| Nft.NftSizeFields | x/nft/nft.pb.go:402-429 | `NFT.Size` adds one term per non-empty string field, then the `Data` record whenever `Data` is non-nil |
| Nft.NftSizeIsLength | x/nft/nft.pb.go:402-429 | `NFT.Size` is the length of `NFT.Marshal`, `Data` included |
| Nft.ClassMarshalToSizedBuffer | x/nft/nft.pb.go:245-292 | writes the class encoding at the end of the buffer and returns `Class.Size` |
| Nft.ClassMarshal | x/nft/nft.pb.go:230-238 | gives the class encoding, of `Class.Size` bytes |
| Nft.ClassUnmarshal | x/nft/nft.pb.go:437-678 | decoding no bytes leaves the class as it is |
| Nft.NftUnmarshal | x/nft/nft.pb.go:679-892 | decoding no bytes leaves the NFT as it is; a successful decode keeps existing `Data` bytes as the start of the merged `Data` |
| Nft.NftMarshalToSizedBuffer | x/nft/nft.pb.go:310-356 | writes the NFT encoding at the end of the buffer and returns `NFT.Size` |
| Nft.NftMarshal | x/nft/nft.pb.go:295-303 | gives the NFT encoding, of `NFT.Size` bytes |
| Nft.ClassUnmarshalEncoding | x/nft/nft.pb.go:437-678 | decoding a class encoding into c0 overwrites c0's fields with the non-empty ones |
| Nft.ClassRoundTrip | x/nft/nft.pb.go:437-678 | `Class.Unmarshal` of `Class.Marshal(c)` into a fresh class gives c |
| Nft.NftUnmarshalEncoding | x/nft/nft.pb.go:679-892 | decoding an NFT encoding overwrites with its non-empty fields and merges its `Data` |
| Nft.NftRoundTrip | x/nft/nft.pb.go:679-892 | `NFT.Unmarshal` of `NFT.Marshal(t)` into a fresh NFT gives t, `Data` included |
| Nft.KnownFields | x/nft/nft.pb.go:465-872 | `Class` knows fields 1 to 6, `NFT` fields 1 to 4 and 10 |

## Left out

- Go reflection: replaced by a type name with an is-pointer flag.
- Table.EmptyRowID: the model's store accepts any key, so `Create` with an empty row ID writes under the bare prefix. The real prefix store's `Set` is not part of this model and may reject an empty key with a panic.
- Table.Has: the nil-key panic that `store/table/table.go:178` documents is not modelled. A nil and an empty row ID are one value here.
- The codespace name `orm` that the errors are registered in: only their codes are modelled.
- The prefix store, `PrefixRange` and `NewInvalidIterator`, whose code is not part of this model. They are specified abstractly:
  - the range of a prefix is the stored keys having it;
  - the invalid iterator never yields and answers iterator-invalid.
- The cursor's `Close` and the real KV store: resource handling only.
- The table's `codec.Codec`: an abstract pair of functions. Codec errors are modelled, its internals are not.
- `Builder.IndexKeyCodec`: a plain accessor. The builder keeps the codec as a field.
- Wrapping text of errors (`errors.Wrap`, `Wrapf`, `fmt.Errorf` messages). Only the error kind and the interceptor position are modelled.
- Go slice aliasing between `Builder` and `Table`, and the "no writes while iterating" contract that callers enforce.
- `types.Any` payload of `NFT.Data`: its own `Marshal`, `Size` and `Unmarshal` are foreign code. `Data` is kept as its encoding.
  - Its decode errors are not modelled.
  - `Data.MarshalToSizedBuffer` errors are not modelled.
- Nil receivers: `Size` of a nil message is 0, which is not modelled.
- The partially decoded message that `Unmarshal` leaves behind on error: the model returns only the error.
- The gzipped descriptor, `init` registration, `String`, `Descriptor`, getters and the `XXX_*` delegations to the proto library.
- Varint.EncodeInto: requires the buffer to have room for the varint. In Go a short buffer panics on an index, and every caller sizes the buffer first.
- Wire.MarshalToSizedBuffer: requires a buffer of at least `Size` bytes, as `Marshal` provides. The generated code would panic on a shorter one.
- Wire.Marshal: requires every length to fit 64 bits, which holds for every Go slice.
- WireDecode.RoundTrip: requires the encoding to be at most the largest Go `int`, which holds for every Go slice.
