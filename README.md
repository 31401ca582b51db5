# A verified model of the tmsgpack encoder

This project models the MessagePack encoder of tmsgpack-js, the class `Encoder` of
`src/Encoder.ts`, in Dafny, and proves what it writes.

The encoder walks a JavaScript value depth first and writes MessagePack into a growable
byte buffer. Lengths use the smallest fitting format: fixint, uint 8/16/32/64,
int 8/16/32/64, float 32/64, fixstr, str 8/16/32, bin 8/16/32, fixarray, array 16/32,
fixmap and map 16/32. Every array and map also carries a non-standard **object-type
slot**. It is a value written right after the header and before the elements: nil for
built-in arrays and plain objects, and the tag returned by the `from_obj` hook for
application objects. The header counts only the elements or pairs, not the slot. Depth
starts at 1, and the slot and the children of an array or map sit one level deeper.
Anything deeper than `maxDepth` fails with "too deep". Options can sort keys
(`sortKeys`), drop undefined values (`ignoreUndefined`), write integers as floats
(`forceIntegerToFloat`, `forceFloat32`) and write bigints as 64-bit integers
(`useBigInt64`).

The project has two layers.

- **The class** (`encoder.dfy`, module `Encoding`).
  - `Encoder` holds `pos`, the buffer `bytes` (an `array<byte>`, which stands for both
    the `DataView` and the `Uint8Array` over the same memory) and the `entered` flag.
    Its options and hook are fixed at construction.
  - Every source method is a method that changes those fields in place. Growing the
    buffer copies into a fresh array twice the required size.
  - The array and map loops are `while` loops with invariants.
  - Each method is proved against a specification function. After a successful call,
    the written prefix `bytes[..pos]` has grown by exactly the bytes the function gives.
    After a failed call, the method reports the function's error, and the bytes
    written before the call are still in place.
- **The specification** (`format.dfy`, module `Format`).
  - `EncodeValue`, `EncodeObject`, `EncodeArray`, `EncodeItems`, `EncodeMap`,
    `EncodeEntries`, `EncodeEntry` and `Encode` define the bytes of every value as a
    `Result`.
  - `NumberBytes`, `JsNumberBytes`, `FloatBytes`, `BigIntBytes`, the four header
    functions, `StringBytes` and `BinaryBytes` give the scalar formats.
  - `MapKeys`, `MapSize`, `CountDefined` and `Emitted` give the key order and the
    pair count.
  - Their meaning is proved in the modules around them:
    - `ScalarFormats`: each scalar and header format reads back to the number it
      encodes, and the integer format chosen is the smallest that holds the number.
    - `Framing`: every successful encoding is exactly one MessagePack object. An array
      header of count n is followed by n + 1 objects, and a map header of count n by
      2n + 1 objects.
    - `MapFacts` and `KeyOrder`: the map header counts the pairs actually written.
      `ignoreUndefined` drops exactly the undefined pairs. With `sortKeys` the bytes do
      not depend on the order of the keys.
    - `Depth`: the `maxDepth` guard. A successful encoding fits within `maxDepth`
      levels. A value without hook objects or oversized lengths encodes exactly when it
      fits, and otherwise fails only with "too deep".
    - `Vectors`: byte strings derived from the model for the values the repository's
      tests use. Where a test writes the bytes out (the integer 3, `[]`, `[null]`,
      `{ foo: "bar" }`), the derived bytes are those bytes.

`Bytes` holds the big-endian encodings of the `DataView` setters. The value is written
modulo 256^w, as the setters do. `Values` holds the value tree, the options and their
defaults. `Reader` is a small header reader. It plays the role of a yardstick for the
round-trip and layout lemmas, and it is not a model of the repository's decoder.

## Model

| member | source | states |
|---|---|---|
| Encoding.Encoder.constructor | src/Encoder.ts:84-98 | the options are the control object's options with every missing option at its default; the hook is the control object's; pos is 0, entered is false and the buffer is fresh with initialBufferSize bytes |
| Encoding.Encoder.Clone | src/Encoder.ts:100-102 | a fresh instance with the same control object, options and hook, an empty position and entered false |
| Encoding.Encoder.ReinitializeState | src/Encoder.ts:104-106 | pos is 0, so nothing counts as written, and the buffer is kept |
| Encoding.Encoder.EncodeSharedRef | src/Encoder.ts:113-128 | on success the returned view up to the returned length is exactly the encoding of the value at depth 1; on failure the outcome is that encoding's error; entered is what it was before the call, on every path; outside a re-entrant call the view is the instance's own buffer and the length is pos |
| Encoding.Encoder.Encode | src/Encoder.ts:133-148 | returns exactly the encoding of the value at depth 1, or its error; entered is restored and the instance stays valid, after failures too |
| Encoding.Encoder.DoEncode | src/Encoder.ts:150-172 | appends exactly the encoding of the value at the given depth, or fails with its error (TooDeep when the depth exceeds maxDepth), keeping the bytes written before the call |
| Encoding.Encoder.EnsureBufferSizeToWrite | src/Encoder.ts:174-180 | afterwards the buffer holds at least pos + sizeToWrite bytes; with room already there the buffer is unchanged; otherwise it is a fresh buffer of 2 * (pos + sizeToWrite) bytes; pos, the written bytes and all old contents are kept |
| Encoding.Encoder.ResizeBuffer | src/Encoder.ts:182-191 | a fresh buffer of newSize bytes whose first bytes are the old buffer's contents; pos and the written bytes are kept |
| Encoding.Encoder.WriteU8 | src/Encoder.ts:426-431 | appends exactly one byte, the value modulo 256, growing the buffer when needed |
| Encoding.Encoder.WriteU8a | src/Encoder.ts:433-439 | appends the given bytes verbatim |
| Encoding.Encoder.WriteI8 | src/Encoder.ts:441-446 | appends one byte, the value's two's-complement modulo 256 |
| Encoding.Encoder.WriteU16 | src/Encoder.ts:448-453 | appends two bytes, the value modulo 2^16, most significant first |
| Encoding.Encoder.WriteI16 | src/Encoder.ts:455-460 | appends two bytes, the value's two's-complement modulo 2^16, most significant first |
| Encoding.Encoder.WriteU32 | src/Encoder.ts:462-467 | appends four bytes, the value modulo 2^32, most significant first |
| Encoding.Encoder.WriteI32 | src/Encoder.ts:469-474 | appends four bytes, the value's two's-complement modulo 2^32, most significant first |
| Encoding.Encoder.WriteF32 | src/Encoder.ts:476-481 | appends the four bytes of the number's single-precision image, most significant first |
| Encoding.Encoder.WriteF64 | src/Encoder.ts:483-488 | appends the eight bytes of the number's double-precision image, most significant first |
| Encoding.Encoder.WriteU64 | src/Encoder.ts:490-495 | appends eight bytes, the value modulo 2^64, most significant first |
| Encoding.Encoder.WriteI64 | src/Encoder.ts:497-502 | appends eight bytes, the value's two's-complement modulo 2^64, most significant first |
| Encoding.Encoder.WriteBigUint64 | src/Encoder.ts:504-509 | appends eight bytes, the bigint modulo 2^64, most significant first |
| Encoding.Encoder.WriteBigInt64 | src/Encoder.ts:511-516 | appends eight bytes, the bigint's two's-complement modulo 2^64, most significant first |
| Encoding.Encoder.EncodeNil | src/Encoder.ts:193-195 | appends the single byte 0xc0 |
| Encoding.Encoder.EncodeBoolean | src/Encoder.ts:197-203 | appends 0xc2 for false and 0xc3 for true |
| Encoding.Encoder.EncodeNumber | src/Encoder.ts:205-257 | appends exactly the number's MessagePack bytes: the smallest integer format for a safe integer, the float format otherwise |
| Encoding.Encoder.EncodeNonNegative | src/Encoder.ts:207-229 | for a safe integer n >= 0 appends the positive fixint, uint 8/16/32 or uint 64 bytes, or the float bytes when useBigInt64 is set and n >= 2^32 |
| Encoding.Encoder.EncodeNegative | src/Encoder.ts:230-253 | for a safe integer n < 0 appends the negative fixint, int 8/16/32 or int 64 bytes, or the float bytes when useBigInt64 is set and n < -2^31 |
| Encoding.Encoder.EncodeNumberAsFloat | src/Encoder.ts:259-269 | appends 0xca and the single image with forceFloat32, otherwise 0xcb and the double image |
| Encoding.Encoder.EncodeBigInt64 | src/Encoder.ts:271-281 | appends 0xcf for a bigint >= 0 and 0xd3 otherwise, then its eight bytes modulo 2^64 |
| Encoding.Encoder.WriteStringHeader | src/Encoder.ts:283-302 | appends the fixstr, str 8, str 16 or str 32 header, or fails with TooLongString when the byte length is at least 2^32 |
| Encoding.Encoder.EncodeString | src/Encoder.ts:304-312 | the buffer afterwards has room for pos + 5 + the UTF-8 length (the longest header and the payload); appends the header and the UTF-8 bytes verbatim, or fails with the header's error |
| Encoding.Encoder.EncodeObject | src/Encoder.ts:314-329 | appends a built-in array or plain object with a nil slot, a binary as bin, and anything else as the map or array the hook returns, tagged with its object type; a refusal by the hook is HookFailed |
| Encoding.Encoder.EncodeBinary | src/Encoder.ts:336-355 | appends the bin 8/16/32 header and the bytes verbatim, or fails with TooLargeBinary when the size is at least 2^32 |
| Encoding.Encoder.WriteArrayHeader | src/Encoder.ts:358-372 | appends the fixarray, array 16 or array 32 header of the count, or fails with TooLargeArray when the count is at least 2^32 |
| Encoding.Encoder.EncodeArray | src/Encoder.ts:357-377 | appends the header, then the slot one level deeper, then the items one level deeper, or stops with the first error |
| Encoding.Encoder.EncodeArrayItems | src/Encoder.ts:374-376 | the loop appends every item in order and stops with the error of the first item that fails |
| Encoding.Encoder.CountWithoutUndefined | src/Encoder.ts:379-389 | returns the number of keys whose value is not undefined |
| Encoding.Encoder.KeysAndSize | src/Encoder.ts:392-397 | returns the keys in the order encodeMap visits them (sorted under sortKeys) and the pair count of its header |
| Encoding.Encoder.WriteMapHeader | src/Encoder.ts:399-412 | appends the fixmap, map 16 or map 32 header of the count, or fails with TooLargeMap when the count is at least 2^32 |
| Encoding.Encoder.EncodeMap | src/Encoder.ts:391-424 | appends the header counting the emitted pairs, then the slot, then every emitted pair, or stops with the first error |
| Encoding.Encoder.EncodeMapEntries | src/Encoder.ts:416-423 | the loop appends every pair in key order and stops with the error of the first pair that fails |
| Encoding.Encoder.EncodeKeyValue | src/Encoder.ts:417-422 | writes nothing for a pair that ignoreUndefined skips, otherwise the key as a string and then the value |
| Encoding.ItemsPrefixFailure | src/Encoder.ts:374-376 | when some prefix of the items fails, the whole array body fails with that same error |
| Encoding.EntriesPrefixFailure | src/Encoder.ts:416-423 | when some prefix of the pairs fails, the whole map body fails with that same error |
| Values.Resolve | src/Encoder.ts:87-93 | maxDepth and initialBufferSize are the given ones or 100 and 2048; each flag is on exactly when it was given as true |
| Format.U8 | src/Encoder.ts:429 | setUint8 keeps a value in 0..255 as it is |
| Format.FloatBytes | src/Encoder.ts:259-269 | five bytes 0xca + single image with forceFloat32, otherwise nine bytes 0xcb + double image |
| Format.NegativeFixint | src/Encoder.ts:231-233 | for -32 <= n < 0 the byte 0xe0 OR (n + 32) is n + 256, in 0xe0..0xff |
| Format.BigIntBytes | src/Encoder.ts:271-281 | nine bytes: 0xcf for a bigint >= 0 and 0xd3 otherwise, then its eight bytes modulo 2^64 |
| Format.StringHeader | src/Encoder.ts:283-302 | fails exactly when the byte length is at least 2^32, and then with TooLongString of that length; otherwise 1 to 5 bytes |
| Format.BinaryHeader | src/Encoder.ts:338-352 | fails exactly when the size is at least 2^32, and then with TooLargeBinary; otherwise 2 to 5 bytes |
| Format.ArrayHeader | src/Encoder.ts:359-372 | fails exactly when the count is at least 2^32, and then with TooLargeArray; otherwise 1, 3 or 5 bytes |
| Format.MapHeader | src/Encoder.ts:399-412 | fails exactly when the count is at least 2^32, and then with TooLargeMap; otherwise 1, 3 or 5 bytes |
| Format.StringBytes | src/Encoder.ts:304-312 | succeeds exactly when the UTF-8 length is below 2^32, and then is a 1 to 5 byte header followed by the UTF-8 bytes verbatim |
| Format.BinaryBytes | src/Encoder.ts:336-355 | succeeds exactly when the size is below 2^32, and then is a 2 to 5 byte header followed by the bytes verbatim |
| Format.CountDefined | src/Encoder.ts:379-389 | the count of defined values never exceeds the number of keys |
| Bytes.FromBigEndianOfBigEndian | src/Encoder.ts:448-474 | the w bytes a DataView setter writes read back, most significant first, as the value modulo 256^w |
| Bytes.UnsignedRoundTrip | src/Encoder.ts:462-467 | a value in 0..256^w - 1 reads back unchanged from its w big-endian bytes |
| Bytes.SignedRoundTrip | src/Encoder.ts:469-474 | a value in the signed range of w bytes reads back unchanged as two's complement |
| ScalarFormats.UnsignedIntRoundTrip | src/Encoder.ts:211-222 | a uint 8/16/32/64 tag followed by the value's big-endian bytes reads back as the value and its length |
| ScalarFormats.SignedIntRoundTrip | src/Encoder.ts:234-249 | an int 8/16/32/64 tag followed by the value's two's-complement bytes reads back as the value and its length |
| ScalarFormats.IntegerRoundTrip | src/Encoder.ts:205-253 | every integer the encoder writes as an integer reads back as that integer, consuming exactly the bytes written, whatever follows |
| ScalarFormats.NonNegativeRoundTrip | src/Encoder.ts:207-229 | the same for the non-negative branch |
| ScalarFormats.NegativeRoundTrip | src/Encoder.ts:230-253 | the same for the negative branch |
| ScalarFormats.NegativeFixintRoundTrip | src/Encoder.ts:231-233 | the negative fixint byte reads back as n, in one byte |
| ScalarFormats.SmallestIntegerFormat | src/Encoder.ts:205-253 | an integer is written in 1, 2, 3, 5 or 9 bytes; that format holds it and no shorter format does |
| ScalarFormats.FloatPath | src/Encoder.ts:205-269 | everything not written as an integer (non-safe integers, fractions, forceIntegerToFloat, wide integers under useBigInt64) is float 32 (5 bytes, 0xca) with forceFloat32 and float 64 (9 bytes, 0xcb) otherwise |
| ScalarFormats.WideIntegers | src/Encoder.ts:223-252 | without useBigInt64 a safe integer at or above 2^32 is uint 64 and one below -2^31 is int 64, nine bytes each |
| ScalarFormats.StringHeaderRoundTrip | src/Encoder.ts:283-302 | for every length below 2^32 the header exists and reads back as that length, consuming exactly the header |
| ScalarFormats.BinaryHeaderRoundTrip | src/Encoder.ts:336-352 | the same for bin headers |
| ScalarFormats.ArrayHeaderRoundTrip | src/Encoder.ts:357-372 | the same for array headers |
| ScalarFormats.MapHeaderRoundTrip | src/Encoder.ts:399-412 | the same for map headers |
| KeyOrder.LessIrreflexive | src/Encoder.ts:394 | the order keys.sort() uses (code unit by code unit, a prefix first) never puts a key before itself |
| KeyOrder.LessTransitive | src/Encoder.ts:394 | that order is transitive |
| KeyOrder.LessTotal | src/Encoder.ts:394 | any two different keys are ordered one way or the other |
| KeyOrder.SortEntriesSorts | src/Encoder.ts:393-395 | sorting yields the same entries, rearranged, in key order, with the same key set, and keeps keys distinct |
| KeyOrder.SortedUnique | src/Encoder.ts:393-395 | two key-sorted sequences with distinct keys and the same entries are equal |
| KeyOrder.SortForgetsOrder | src/Encoder.ts:393-395 | two orderings of the same entries with distinct keys sort to the same sequence |
| MapFacts.MapKeysPermute | src/Encoder.ts:392-395 | the keys encodeMap visits are the given entries, sorted under sortKeys and as given otherwise |
| MapFacts.EmittedEntriesFilter | src/Encoder.ts:416-423 | the pairs written are exactly the given pairs that ignoreUndefined does not skip, and all of them when it is off |
| MapFacts.MapSizeCountsEmitted | src/Encoder.ts:379-397 | the count in the map header equals the number of pairs written |
| MapFacts.SkippedPairsWriteNothing | src/Encoder.ts:416-423 | the skipped pairs contribute no bytes: the body equals the body of the written pairs alone |
| MapFacts.SortKeysCanonical | src/Encoder.ts:391-395 | with sortKeys, two maps holding the same pairs with distinct keys encode to the same bytes, whatever their key order |
| Framing.EncodingIsOneObject | src/Encoder.ts:133-148 | a successful encoding is exactly one complete MessagePack object; skipping one object in it followed by any bytes leaves those bytes |
| Framing.ValueFrame | src/Encoder.ts:150-172 | every successful doEncode writes exactly one object |
| Framing.ObjectFrame | src/Encoder.ts:314-329 | every successful encodeObject writes exactly one object |
| Framing.ArrayFrame | src/Encoder.ts:357-377 | a successful encodeArray writes exactly one object |
| Framing.ItemsFrame | src/Encoder.ts:374-376 | the items of an array write exactly one object each |
| Framing.MapFrame | src/Encoder.ts:391-424 | a successful encodeMap writes exactly one object |
| Framing.PairsFrame | src/Encoder.ts:397-424 | the counted header, the slot and the pairs together form one object |
| Framing.EntriesFrame | src/Encoder.ts:416-423 | the pairs write two objects per written pair |
| Framing.EntryFrame | src/Encoder.ts:417-422 | one pair writes two objects, or none when it is skipped |
| Framing.ArrayLayout | src/Encoder.ts:357-377 | an array's header reads back as its item count n and is followed by exactly n + 1 objects: the slot and the items |
| Framing.MapLayout | src/Encoder.ts:391-424 | a map's header reads back as the number n of pairs written and is followed by exactly 2n + 1 objects: the slot and the keys and values |
| Framing.BuiltInSlotIsNil | src/Encoder.ts:314-320 | for a built-in array or plain object the byte right after the header is nil, the slot |
| Framing.HeadOfConstant | src/Encoder.ts:193-203 | nil, false and true are each one complete object without children |
| Framing.HeadOfNumber | src/Encoder.ts:205-269 | every number's bytes are one complete object without children |
| Framing.HeadOfBigInt | src/Encoder.ts:271-281 | a bigint's nine bytes are one complete object without children |
| Framing.HeadOfString | src/Encoder.ts:283-312 | a string's header and bytes are one complete object without children |
| Framing.HeadOfBinary | src/Encoder.ts:336-355 | a binary's header and bytes are one complete object without children |
| Framing.HeadOfArrayHeader | src/Encoder.ts:357-372 | an array header of count n announces n + 1 objects |
| Framing.HeadOfMapHeader | src/Encoder.ts:399-412 | a map header of count n announces 2n + 1 objects |
| Depth.ValueDepth | src/Encoder.ts:150-172 | a value that encodes at some depth encodes to the same bytes at every shallower depth |
| Depth.ObjectDepth | src/Encoder.ts:314-329 | the same for encodeObject |
| Depth.ArrayDepth | src/Encoder.ts:373-375 | the same for encodeArray |
| Depth.ItemsDepth | src/Encoder.ts:374-376 | the same for an array's items |
| Depth.MapDepth | src/Encoder.ts:414-421 | the same for encodeMap |
| Depth.EntriesDepth | src/Encoder.ts:416-423 | the same for a map's pairs |
| Depth.EntryDepth | src/Encoder.ts:419-422 | the same for one pair |
| Depth.NestingLimit | src/Encoder.ts:150-153 | k arrays nested inside each other encode at depth d exactly when d + k <= maxDepth, to the bytes 0x91 0xc0 repeated k times and then a single 0xc0 (the innermost nil); otherwise the error is TooDeep of the first depth past the limit |
| Depth.NestStep | src/Encoder.ts:357-377 | one level of such nesting: the header and nil slot, then the inner array one level deeper, or the inner error |
| Depth.DepthBound | src/Encoder.ts:150-153 | a value that encodes at depth d fits in maxDepth - d levels; a value without hook objects or lengths of 2^32 or more encodes exactly when it fits, and otherwise fails with TooDeep |
| Depth.ArrayBound | src/Encoder.ts:357-377 | the depth bound for a built-in array, whose slot and items sit one level deeper |
| Depth.ItemsOutcome | src/Encoder.ts:374-376 | encodeArray's loop succeeds exactly when every item encodes, and a failure is the error of one of the items |
| Depth.EntriesOutcome | src/Encoder.ts:416-423 | encodeMap's loop succeeds exactly when every pair encodes, and a failure is the error of one of the pairs |
| Depth.MapBound | src/Encoder.ts:391-424 | the depth bound for a plain object, whose slot and values sit one level deeper, whatever the key order |
| Vectors.IntegerThree | test/encode.test.ts:31 | encode(3) is [0x03], by default and with forceIntegerToFloat false |
| Vectors.IntegerThreeAsDouble | test/encode.test.ts:34-39 | with forceIntegerToFloat, encode(3) is 0xcb 0x40 0x08 and six zero bytes |
| Vectors.IntegerThreeAsSingle | test/encode.test.ts:41-46 | with forceIntegerToFloat and forceFloat32, encode(3) is 0xca 0x40 0x40 0x00 0x00 |
| Vectors.UndefinedKept | test/encode.test.ts:54-56 | the bytes the model derives for the test's value { foo: undefined, bar: 42 } by default: 0x82 0xc0, then the pairs foo: nil and bar: 42, undefined being written as nil (the test checks the decoded value { foo: null, bar: 42 }, not bytes) |
| Vectors.KeptPairs | test/encode.test.ts:54-56 | the bytes the model derives for those two pairs: the fixstr keys, nil and the fixint 42 |
| Vectors.UndefinedDropped | test/encode.test.ts:65-67 | the bytes the model derives for the same value with ignoreUndefined: 0x81 0xc0 and then the pair bar: 42 alone (the test checks the decoded value { bar: 42 }, not bytes) |
| Vectors.OneTwoThree | test/encode.test.ts:71 | the bytes the model derives for the test's value [1, 2, 3]: 0x93 0xc0 0x01 0x02 0x03 (the test itself compares two decodings, not bytes) |
| Vectors.SortKeysExample | test/encode.test.ts:8 | with sortKeys, { a: 1, b: 2 } and { b: 2, a: 1 } encode to the same bytes |
| Vectors.SortedObjects | test/encode.test.ts:8 | with sortKeys, any two orderings of a plain object's distinct keys encode alike |
| Vectors.EmptyArray | test/edge-cases.test.ts:117 | [] is 0x90 0xc0 |
| Vectors.ArrayOfNil | test/decodeAsync.test.ts:19-27 | [null] is 0x91 0xc0 0xc0 |
| Vectors.FooBar | test/decodeAsync.test.ts:29-37 | { foo: "bar" } is 0x81 0xc0 followed by the fixstr "foo" and the fixstr "bar" |
| Vectors.FooBarPair | test/decodeAsync.test.ts:32-33 | the pair foo: "bar" is the two fixstr strings |
| Vectors.ShortString | test/decodeAsync.test.ts:32 | a three-byte string is 0xa3 followed by its bytes |

## Left out

- Floating point: the IEEE-754 conversion behind `setFloat32`/`setFloat64` is not modelled. A number carries its double and single images as data, so the 3.14 vectors of test/encode.test.ts:14-24 are not derived.
- UTF-8: src/utils/utf8.ts is not part of this model. A string carries its UTF-16 code units (for key sorting) and its UTF-8 bytes (what is written), and `utf8Count` is the length of those bytes.
- 64-bit helpers: src/utils/int.ts is not part of this model. `setUint64`/`setInt64` are taken to write the value's eight big-endian bytes modulo 2^64.
- src/utils/typedArrays.ts is not part of this model. A binary is its byte sequence.
- Bigints: `setBigUint64`/`setBigInt64` wrap around, and the model writes the bigint modulo 2^64 exactly as they do. No range is required.
- JavaScript runtime tests: `object == null`, `typeof`, `Array.isArray`, `ArrayBuffer.isView` and `isPlainMap` (src/Encoder.ts:331-334) become tests of the `Value` constructors. A plain object's keys arrive in `Object.keys` order, as the order of its entries.
- The hook: `from_obj` is a total, side-effect-free function of the value. A hook that throws is the `Refused` answer. A hook with side effects, including one that calls back into the same encoder, is not modelled. The clone branch of `encode`/`encodeSharedRef` is modelled and taken whenever `entered` is already set.
- Values.Resolve: `maxDepth` is an integer and `initialBufferSize` a natural number, while the source takes JavaScript numbers. So the model does not cover:
  - a `maxDepth` of `Infinity` or `NaN`, for which the guard `depth > maxDepth` (src/Encoder.ts:151) never fires and there is no depth limit;
  - a fractional `maxDepth`, which acts as its floor;
  - a fractional `initialBufferSize`, which `new ArrayBuffer` truncates;
  - a negative `initialBufferSize`, for which the constructor throws a RangeError.
- Exceptions are `Err`/`Fail` outcomes carrying the kind of error and its number; the message text is not modelled.
- Encoding.Encoder.EncodeSharedRef: the aliasing between the returned `subarray` and later writes into the same buffer is not modelled; the contract speaks of the bytes at return time.
- After a failure the contracts promise only that the bytes written before the call are still the first bytes written. They say nothing about how far `pos` moved or what the partial output after those bytes holds. The source leaves that partial output in the buffer, and the next call discards it.
- Cyclic value graphs cannot be built as Dafny datatypes. `Depth.NestingLimit` and `Depth.DepthBound` state the depth guard instead.
- Depth.DepthBound: the if-and-only-if is stated for values without hook objects and without lengths of 2^32 or more. For other values only one direction is stated (success means the value fits), because the hook or a length error can fail a value that fits.
- The decoder: src/Decoder.ts is not part of this model. The wrappers src/encode.ts, src/decode.ts and src/decodeAsync.ts and the async, stream and Blob drivers are I/O around the core. `Reader` reads headers only to state the round-trip and layout lemmas. It treats the ext formats and 0xc1, which the encoder never writes, as unknown.
- Lengths are unbounded naturals. The error for a length of 2^32 or more is modelled, but not the memory such a value would need.
- `EncodeNonNegative`, `EncodeNegative`, `Store`, `SetBytes`, `Append`, `KeysAndSize`, `EncodeArrayItems`, `EncodeMapEntries` and `EncodeKeyValue` are methods the model adds to split the source's branches and loops into provable pieces. They do not exist in the source.
