/**
 The bytes the encoder emits, as functions of the value, the options, the `from_obj`
 hook and the current depth. These are the specifications the `Encoder` class is
 proved against; they follow `src/Encoder.ts` branch for branch.
 */
module Format {
  import opened Bytes
  import opened Values
  import opened KeyOrder

  const UINT32_LIMIT: int := 0x1_0000_0000

  /** DataView.setUint8: the value modulo 256. */
  function U8(x: int): (r: byte)
    ensures 0 <= x < 256 ==> r as int == x
  {
    (x % 256) as byte
  }

  function NilBytes(): seq<byte> {
    [0xc0]
  }

  function BooleanBytes(b: bool): seq<byte> {
    if !b then [0xc2] else [0xc3]
  }

  /** float 32 or float 64, from the number's IEEE-754 image. */
  function FloatBytes(o: Options, x: JsNumber): (r: seq<byte>)
    ensures o.forceFloat32 ==> |r| == 5 && r[0] == 0xca && r[1..] == BigEndian(x.f32, 4)
    ensures !o.forceFloat32 ==> |r| == 9 && r[0] == 0xcb && r[1..] == BigEndian(x.f64, 8)
  {
    if o.forceFloat32 then [0xca] + BigEndian(x.f32, 4) else [0xcb] + BigEndian(x.f64, 8)
  }

  /** The negative fixint byte `0xe0 | (n + 0x20)`: n's two's-complement byte, n + 0x100. */
  function NegativeFixint(n: int): (r: byte)
    requires -0x20 <= n < 0
    ensures 0xe0 <= r as int <= 0xff
    ensures r as int == n + 0x100
  {
    var b := (0xe0 as bv8) | ((n + 0x20) as bv8);
    NegativeFixintOr(n + 0x20);
    U8(b as int)
  }

  /** Below 0x20 the or with 0xe0 is an addition. */
  lemma NegativeFixintOr(k: int)
    requires 0 <= k < 0x20
    ensures ((0xe0 as bv8) | (k as bv8)) as int == 0xe0 + k
  {
    var x := k as bv8;
    assert x as int == k;
    assert (0xe0 as bv8) | x == 0xe0 + x;
    assert (0xe0 + x) as int == 0xe0 + x as int;
  }

  /** encodeNumber when forceIntegerToFloat is off: the smallest integer format, or a float. */
  function NumberBytes(o: Options, x: JsNumber): seq<byte> {
    if !o.forceIntegerToFloat && IsSafeInteger(x) then
      var n := x.n;
      if n >= 0 then
        if n < 0x80 then [U8(n)]                                    // positive fixint
        else if n < 0x100 then [0xcc, U8(n)]                        // uint 8
        else if n < 0x1_0000 then [0xcd] + BigEndian(n, 2)          // uint 16
        else if n < UINT32_LIMIT then [0xce] + BigEndian(n, 4)      // uint 32
        else if !o.useBigInt64 then [0xcf] + BigEndian(n, 8)        // uint 64
        else FloatBytes(o, x)
      else
        if n >= -0x20 then [NegativeFixint(n)]                      // negative fixint
        else if n >= -0x80 then [0xd0] + BigEndian(n, 1)            // int 8
        else if n >= -0x8000 then [0xd1] + BigEndian(n, 2)          // int 16
        else if n >= -0x8000_0000 then [0xd2] + BigEndian(n, 4)     // int 32
        else if !o.useBigInt64 then [0xd3] + BigEndian(n, 8)        // int 64
        else FloatBytes(o, x)
    else
      FloatBytes(o, x)
  }

  /** A number as doEncode writes it: forceIntegerToFloat sends every number to the float path. */
  function JsNumberBytes(o: Options, x: JsNumber): seq<byte> {
    if !o.forceIntegerToFloat then NumberBytes(o, x) else FloatBytes(o, x)
  }

  /** encodeBigInt64: uint 64 for a non-negative bigint, int 64 otherwise, wrapping modulo 2^64. */
  function BigIntBytes(i: int): (r: seq<byte>)
    ensures |r| == 9 && r[1..] == BigEndian(i, 8)
    ensures r[0] == (if i >= 0 then 0xcf else 0xd3)
  {
    if i >= 0 then [0xcf] + BigEndian(i, 8) else [0xd3] + BigEndian(i, 8)
  }

  /** writeStringHeader */
  function StringHeader(byteLength: nat): (r: Result<seq<byte>>)
    ensures r.Err? <==> byteLength >= UINT32_LIMIT
    ensures r.Err? ==> r.error == TooLongString(byteLength)
    ensures r.Ok? ==> 1 <= |r.value| <= 5
  {
    if byteLength < 32 then Ok([U8(0xa0 + byteLength)])               // fixstr
    else if byteLength < 0x100 then Ok([0xd9, U8(byteLength)])        // str 8
    else if byteLength < 0x1_0000 then Ok([0xda] + BigEndian(byteLength, 2))   // str 16
    else if byteLength < UINT32_LIMIT then Ok([0xdb] + BigEndian(byteLength, 4))  // str 32
    else Err(TooLongString(byteLength))
  }

  /** The header of encodeBinary. */
  function BinaryHeader(size: nat): (r: Result<seq<byte>>)
    ensures r.Err? <==> size >= UINT32_LIMIT
    ensures r.Err? ==> r.error == TooLargeBinary(size)
    ensures r.Ok? ==> 2 <= |r.value| <= 5
  {
    if size < 0x100 then Ok([0xc4, U8(size)])                          // bin 8
    else if size < 0x1_0000 then Ok([0xc5] + BigEndian(size, 2))       // bin 16
    else if size < UINT32_LIMIT then Ok([0xc6] + BigEndian(size, 4))   // bin 32
    else Err(TooLargeBinary(size))
  }

  /** The header of encodeArray. */
  function ArrayHeader(size: nat): (r: Result<seq<byte>>)
    ensures r.Err? <==> size >= UINT32_LIMIT
    ensures r.Err? ==> r.error == TooLargeArray(size)
    ensures r.Ok? ==> |r.value| in {1, 3, 5}
  {
    if size < 16 then Ok([U8(0x90 + size)])                            // fixarray
    else if size < 0x1_0000 then Ok([0xdc] + BigEndian(size, 2))       // array 16
    else if size < UINT32_LIMIT then Ok([0xdd] + BigEndian(size, 4))   // array 32
    else Err(TooLargeArray(size))
  }

  /** The header of encodeMap. */
  function MapHeader(size: nat): (r: Result<seq<byte>>)
    ensures r.Err? <==> size >= UINT32_LIMIT
    ensures r.Err? ==> r.error == TooLargeMap(size)
    ensures r.Ok? ==> |r.value| in {1, 3, 5}
  {
    if size < 16 then Ok([U8(0x80 + size)])                            // fixmap
    else if size < 0x1_0000 then Ok([0xde] + BigEndian(size, 2))       // map 16
    else if size < UINT32_LIMIT then Ok([0xdf] + BigEndian(size, 4))   // map 32
    else Err(TooLargeMap(size))
  }

  /** encodeString: the header, then the UTF-8 bytes verbatim. */
  function StringBytes(utf8: seq<byte>): (r: Result<seq<byte>>)
    ensures r.Ok? <==> |utf8| < UINT32_LIMIT
    ensures r.Ok? ==> 1 <= |r.value| - |utf8| <= 5 && r.value[|r.value| - |utf8|..] == utf8
  {
    var header :- StringHeader(|utf8|);
    Ok(header + utf8)
  }

  /** encodeBinary: the header, then the bytes verbatim. */
  function BinaryBytes(data: seq<byte>): (r: Result<seq<byte>>)
    ensures r.Ok? <==> |data| < UINT32_LIMIT
    ensures r.Ok? ==> 2 <= |r.value| - |data| <= 5 && r.value[|r.value| - |data|..] == data
  {
    var header :- BinaryHeader(|data|);
    Ok(header + data)
  }

  /** The keys in the order encodeMap visits them. */
  function MapKeys(o: Options, entries: seq<Entry>): seq<Entry> {
    if o.sortKeys then SortEntries(entries) else entries
  }

  /** countWithoutUndefined: how many entries hold something other than undefined. */
  function CountDefined(entries: seq<Entry>): (r: nat)
    ensures r <= |entries|
  {
    if entries == [] then 0
    else
      var last := entries[|entries| - 1];
      CountDefined(entries[..|entries| - 1]) + (if last.value != Undefined then 1 else 0)
  }

  /** The count encodeMap writes in the map header. */
  function MapSize(o: Options, keys: seq<Entry>): nat {
    if o.ignoreUndefined then CountDefined(keys) else |keys|
  }

  /** Whether encodeMap writes the entry or skips it. */
  predicate Emitted(o: Options, e: Entry) {
    !(o.ignoreUndefined && e.value == Undefined)
  }

  /** doEncode(v, depth) */
  function EncodeValue(o: Options, fromObj: Value -> Envelope, v: Value, depth: int): Result<seq<byte>>
    decreases o.maxDepth - depth, 0, 0
  {
    if depth > o.maxDepth then Err(TooDeep(depth))
    else
      match v
      case Nil => Ok(NilBytes())
      case Undefined => Ok(NilBytes())
      case Bool(b) => Ok(BooleanBytes(b))
      case Num(x) => Ok(JsNumberBytes(o, x))
      case Str(s) => StringBytes(s.utf8)
      case BigInt(i) =>
        if o.useBigInt64 then Ok(BigIntBytes(i)) else EncodeObject(o, fromObj, v, depth)
      case _ => EncodeObject(o, fromObj, v, depth)
  }

  /**
   encodeObject: arrays, binaries and plain objects are built in, everything else
   goes through the hook and is written as a map or an array tagged with its object type.
   */
  function EncodeObject(o: Options, fromObj: Value -> Envelope, v: Value, depth: int): Result<seq<byte>>
    decreases o.maxDepth - depth - 1, 3, 0
  {
    match v
    case Arr(items) => EncodeArray(o, fromObj, items, Nil, depth)
    case Bin(data) => BinaryBytes(data)
    case Dict(entries) => EncodeMap(o, fromObj, entries, Nil, depth)
    case _ =>
      match fromObj(v)
      case AsDict(objectType, data) => EncodeMap(o, fromObj, data, objectType, depth)
      case AsList(objectType, items) => EncodeArray(o, fromObj, items, objectType, depth)
      case Refused(message) => Err(HookFailed(message))
  }

  /** encodeArray: the header counts the items, then the object-type slot, then the items. */
  function EncodeArray(o: Options, fromObj: Value -> Envelope, items: seq<Value>, objectType: Value, depth: int)
    : Result<seq<byte>>
    decreases o.maxDepth - depth - 1, 2, 0
  {
    var header :- ArrayHeader(|items|);
    var slot :- EncodeValue(o, fromObj, objectType, depth + 1);
    var body :- EncodeItems(o, fromObj, items, depth + 1);
    Ok(header + slot + body)
  }

  /** The items of an array, in order, each at the given depth; the first failure wins. */
  function EncodeItems(o: Options, fromObj: Value -> Envelope, items: seq<Value>, depth: int): Result<seq<byte>>
    decreases o.maxDepth - depth, 1, |items|
  {
    if items == [] then Ok([])
    else
      var init :- EncodeItems(o, fromObj, items[..|items| - 1], depth);
      var last :- EncodeValue(o, fromObj, items[|items| - 1], depth);
      Ok(init + last)
  }

  /** encodeMap: the header counts the emitted pairs, then the object-type slot, then the pairs. */
  function EncodeMap(o: Options, fromObj: Value -> Envelope, entries: seq<Entry>, objectType: Value, depth: int)
    : Result<seq<byte>>
    decreases o.maxDepth - depth - 1, 2, 0
  {
    var keys := MapKeys(o, entries);
    var header :- MapHeader(MapSize(o, keys));
    var slot :- EncodeValue(o, fromObj, objectType, depth + 1);
    var body :- EncodeEntries(o, fromObj, keys, depth + 1);
    Ok(header + slot + body)
  }

  /** The key/value pairs of a map, in key order, skipping the ones ignoreUndefined drops. */
  function EncodeEntries(o: Options, fromObj: Value -> Envelope, keys: seq<Entry>, depth: int): Result<seq<byte>>
    decreases o.maxDepth - depth, 1, |keys|
  {
    if keys == [] then Ok([])
    else
      var init :- EncodeEntries(o, fromObj, keys[..|keys| - 1], depth);
      var last :- EncodeEntry(o, fromObj, keys[|keys| - 1], depth);
      Ok(init + last)
  }

  /** One turn of encodeMap's loop: nothing for a skipped pair, else the key as a string and the value. */
  function EncodeEntry(o: Options, fromObj: Value -> Envelope, e: Entry, depth: int): Result<seq<byte>>
    decreases o.maxDepth - depth, 0, 1
  {
    if !Emitted(o, e) then Ok([])
    else
      var key :- StringBytes(e.key.utf8);
      var value :- EncodeValue(o, fromObj, e.value, depth);
      Ok(key + value)
  }

  /** encode / encodeSharedRef: the whole value, starting at depth 1. */
  function Encode(o: Options, fromObj: Value -> Envelope, v: Value): Result<seq<byte>> {
    EncodeValue(o, fromObj, v, 1)
  }
}
