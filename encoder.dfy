/**
 The `Encoder` class of src/Encoder.ts: a growable byte buffer, a write position and
 the `entered` flag, updated in place by the write and encode methods. Every method
 is proved against the functions of module Format: after a successful call the
 written prefix `bytes[..pos]` has grown by exactly the bytes Format specifies, and a
 failed call reports Format's error.
 */
module Encoding {
  import opened Bytes
  import opened Values
  import opened KeyOrder
  import opened Format

  class Encoder {
    const packCtrl: PackCtrl
    const options: Options
    const fromObj: Value -> Envelope

    var pos: nat
    var bytes: array<byte>    // the DataView `view` and the Uint8Array `bytes` share this buffer
    var entered: bool

    ghost predicate Valid()
      reads this
    {
      pos <= bytes.Length
    }

    /** The options and the hook are the ones the control object gave the constructor. */
    ghost predicate Configured() {
      options == Resolve(packCtrl.options) && fromObj == packCtrl.fromObj
    }

    /** What has been written so far. */
    ghost function Written(): seq<byte>
      reads this, bytes
      requires Valid()
    {
      bytes[..pos]
    }

    /**
     The frame every writing method keeps: the instance stays valid, the buffer is the
     old one or a fresh one, it never shrinks, and `entered` is left alone.
     */
    twostate predicate Kept()
      reads this
    {
      Valid() && (bytes == old(bytes) || fresh(bytes)) && bytes.Length >= old(bytes.Length)
      && entered == old(entered)
    }

    /** A write that appended exactly `added` to what was written. */
    twostate predicate Appended(added: seq<byte>)
      reads this, bytes
    {
      Kept() && old(Valid()) && Written() == old(Written()) + added
    }

    /**
     A write that did what `spec` says: appended its bytes, or failed with its error,
     leaving what was written before the call in place (a failed write may leave a
     partial encoding after it).
     */
    twostate predicate Performed(new spec: Result<seq<byte>>, r: Outcome)
      reads this, bytes
    {
      Kept() && old(Valid())
      && (spec.Ok? ==> r == Pass && Written() == old(Written()) + spec.value)
      && (spec.Err? ==> r == Fail(spec.error) && old(Written()) <= Written())
    }

    constructor (packCtrl: PackCtrl)
      ensures Valid() && Configured() && fresh(bytes) && !entered && pos == 0
      ensures this.packCtrl == packCtrl
      ensures bytes.Length == options.initialBufferSize
    {
      this.packCtrl := packCtrl;
      options := Resolve(packCtrl.options);
      fromObj := packCtrl.fromObj;
      pos := 0;
      bytes := new byte[Resolve(packCtrl.options).initialBufferSize];
      entered := false;
    }

    /** A fresh instance with the same hook and options. */
    method Clone() returns (instance: Encoder)
      requires Configured()
      ensures fresh(instance) && fresh(instance.bytes)
      ensures instance.Valid() && instance.Configured() && !instance.entered && instance.pos == 0
      ensures instance.options == options && instance.fromObj == fromObj
      ensures instance.packCtrl == packCtrl
    {
      instance := new Encoder(packCtrl);
      assert instance.options == Resolve(packCtrl.options);
    }

    method ReinitializeState()
      requires Valid()
      modifies this`pos
      ensures Valid() && pos == 0 && Written() == []
    {
      pos := 0;
    }

    /**
     encodeSharedRef: the encoding, left in the instance's own buffer, which the caller
     sees through `view` up to `length`. A call made while another is in progress
     (entered) is served by a fresh clone.
     */
    method EncodeSharedRef(obj: Value) returns (r: Outcome, view: array<byte>, length: nat)
      requires Valid() && Configured()
      modifies this, bytes
      ensures Valid() && entered == old(entered)
      ensures Format.Encode(options, fromObj, obj).Ok? ==>
        r == Pass && length <= view.Length && view[..length] == Format.Encode(options, fromObj, obj).value
      ensures Format.Encode(options, fromObj, obj).Err? ==> r == Fail(Format.Encode(options, fromObj, obj).error)
      ensures !old(entered) ==> view == bytes && length == pos
      decreases if entered then 1 else 0
    {
      if entered {
        var instance := Clone();
        r, view, length := instance.EncodeSharedRef(obj);
        return;
      }
      entered := true;
      ReinitializeState();
      r := DoEncode(obj, 1);
      if r.Pass? {
        assert Written() == [] + Format.Encode(options, fromObj, obj).value;
      }
      view, length := bytes, pos;          // this.bytes.subarray(0, this.pos)
      entered := false;
    }

    /** encode: the encoding as a copy of the written bytes, or the error it stopped with. */
    method Encode(obj: Value) returns (r: Result<seq<byte>>)
      requires Valid() && Configured()
      modifies this, bytes
      ensures Valid() && entered == old(entered)
      ensures r == Format.Encode(options, fromObj, obj)
      decreases if entered then 1 else 0
    {
      if entered {
        var instance := Clone();
        r := instance.Encode(obj);
        return;
      }
      entered := true;
      ReinitializeState();
      var outcome := DoEncode(obj, 1);
      if outcome.Pass? {
        ghost var spec := Format.Encode(options, fromObj, obj);
        assert spec.Ok? && Written() == [] + spec.value;
        assert [] + spec.value == spec.value;
        r := Ok(bytes[..pos]);             // this.bytes.slice(0, this.pos)
      } else {
        r := Err(outcome.error);
      }
      entered := false;
    }

    /** After the call the buffer holds pos + sizeToWrite bytes; a resize doubles the required size. */
    method EnsureBufferSizeToWrite(sizeToWrite: nat)
      requires Valid()
      modifies this`bytes
      ensures Valid() && pos == old(pos) && Written() == old(Written())
      ensures bytes.Length >= pos + sizeToWrite
      ensures old(bytes.Length) >= pos + sizeToWrite ==> bytes == old(bytes)
      ensures old(bytes.Length) < pos + sizeToWrite ==>
        fresh(bytes) && bytes.Length == 2 * (pos + sizeToWrite)
      ensures bytes[..old(bytes.Length)] == old(bytes[..])
    {
      var requiredSize := pos + sizeToWrite;
      if bytes.Length < requiredSize {
        ResizeBuffer(requiredSize * 2);
      }
    }

    /** A new buffer of newSize bytes that starts with a copy of the old one. */
    method ResizeBuffer(newSize: nat)
      requires Valid() && newSize >= bytes.Length
      modifies this`bytes
      ensures Valid() && pos == old(pos) && Written() == old(Written())
      ensures fresh(bytes) && bytes.Length == newSize
      ensures bytes[..old(bytes.Length)] == old(bytes[..])
    {
      var newBytes := new byte[newSize];
      var i := 0;
      while i < bytes.Length
        invariant bytes == old(bytes) && pos == old(pos)
        invariant 0 <= i <= bytes.Length
        invariant newBytes[..i] == bytes[..i]
      {
        newBytes[i] := bytes[i];
        i := i + 1;
      }
      assert newBytes[..bytes.Length] == bytes[..];
      assert newBytes[..pos] == bytes[..pos];
      bytes := newBytes;
    }

    /** Copies values into the buffer from index at on, leaving everything else alone. */
    method SetBytes(at: nat, values: seq<byte>)
      requires at + |values| <= bytes.Length
      modifies bytes
      ensures bytes[..at] == old(bytes[..at])
      ensures bytes[at..at + |values|] == values
    {
      var i := 0;
      while i < |values|
        invariant 0 <= i <= |values|
        invariant bytes[..at] == old(bytes[..at])
        invariant bytes[at..at + i] == values[..i]
      {
        bytes[at + i] := values[i];
        i := i + 1;
      }
    }

    /** Grows the buffer if needed, stores `values` at pos and moves pos past them. */
    method Append(values: seq<byte>)
      requires Valid()
      modifies this, bytes
      ensures Appended(values)
    {
      EnsureBufferSizeToWrite(|values|);
      Store(values);
    }

    /** Stores `values` at pos, in room already reserved, and moves pos past them. */
    method Store(values: seq<byte>)
      requires Valid() && pos + |values| <= bytes.Length
      modifies this`pos, bytes
      ensures Appended(values) && bytes == old(bytes)
    {
      SetBytes(pos, values);
      assert bytes[..pos + |values|] == bytes[..pos] + bytes[pos..pos + |values|];
      pos := pos + |values|;
    }

    method WriteU8(value: int)
      requires Valid()
      modifies this, bytes
      ensures Appended([U8(value)])
    {
      Append([U8(value)]);
    }

    method WriteU8a(values: seq<byte>)
      requires Valid()
      modifies this, bytes
      ensures Appended(values)
    {
      Append(values);
    }

    method WriteI8(value: int)
      requires Valid()
      modifies this, bytes
      ensures Appended(BigEndian(value, 1))
    {
      Append(BigEndian(value, 1));
    }

    method WriteU16(value: int)
      requires Valid()
      modifies this, bytes
      ensures Appended(BigEndian(value, 2))
    {
      Append(BigEndian(value, 2));
    }

    method WriteI16(value: int)
      requires Valid()
      modifies this, bytes
      ensures Appended(BigEndian(value, 2))
    {
      Append(BigEndian(value, 2));
    }

    method WriteU32(value: int)
      requires Valid()
      modifies this, bytes
      ensures Appended(BigEndian(value, 4))
    {
      Append(BigEndian(value, 4));
    }

    method WriteI32(value: int)
      requires Valid()
      modifies this, bytes
      ensures Appended(BigEndian(value, 4))
    {
      Append(BigEndian(value, 4));
    }

    /** setFloat32, given the number's single-precision bit pattern. */
    method WriteF32(x: JsNumber)
      requires Valid()
      modifies this, bytes
      ensures Appended(BigEndian(x.f32, 4))
    {
      Append(BigEndian(x.f32, 4));
    }

    /** setFloat64, given the number's double-precision bit pattern. */
    method WriteF64(x: JsNumber)
      requires Valid()
      modifies this, bytes
      ensures Appended(BigEndian(x.f64, 8))
    {
      Append(BigEndian(x.f64, 8));
    }

    method WriteU64(value: int)
      requires Valid()
      modifies this, bytes
      ensures Appended(BigEndian(value, 8))
    {
      Append(BigEndian(value, 8));
    }

    method WriteI64(value: int)
      requires Valid()
      modifies this, bytes
      ensures Appended(BigEndian(value, 8))
    {
      Append(BigEndian(value, 8));
    }

    method WriteBigUint64(value: int)
      requires Valid()
      modifies this, bytes
      ensures Appended(BigEndian(value, 8))
    {
      Append(BigEndian(value, 8));
    }

    method WriteBigInt64(value: int)
      requires Valid()
      modifies this, bytes
      ensures Appended(BigEndian(value, 8))
    {
      Append(BigEndian(value, 8));
    }

    method EncodeNil()
      requires Valid()
      modifies this, bytes
      ensures Appended(NilBytes())
    {
      WriteU8(0xc0);
    }

    method EncodeBoolean(obj: bool)
      requires Valid()
      modifies this, bytes
      ensures Appended(BooleanBytes(obj))
    {
      if obj == false {
        WriteU8(0xc2);
      } else {
        WriteU8(0xc3);
      }
    }

    method EncodeNumber(obj: JsNumber)
      requires Valid()
      modifies this, bytes
      ensures Appended(NumberBytes(options, obj))
    {
      if !options.forceIntegerToFloat && IsSafeInteger(obj) {
        if obj.n >= 0 {
          EncodeNonNegative(obj);
        } else {
          EncodeNegative(obj);
        }
      } else {
        EncodeNumberAsFloat(obj);
      }
    }

    /** The `object >= 0` branch of encodeNumber for a safe integer. */
    method EncodeNonNegative(obj: JsNumber)
      requires Valid() && !options.forceIntegerToFloat && IsSafeInteger(obj) && obj.n >= 0
      modifies this, bytes
      ensures Appended(NumberBytes(options, obj))
    {
      ghost var start := Written();
      var n := obj.n;
      if n < 0x80 {
        WriteU8(n);                        // positive fixint
      } else if n < 0x100 {
        WriteU8(0xcc);                     // uint 8
        WriteU8(n);
        Associate(start, [U8(0xcc)], [U8(n)]);
      } else if n < 0x1_0000 {
        WriteU8(0xcd);                     // uint 16
        WriteU16(n);
        Associate(start, [U8(0xcd)], BigEndian(n, 2));
      } else if n < UINT32_LIMIT {
        WriteU8(0xce);                     // uint 32
        WriteU32(n);
        Associate(start, [U8(0xce)], BigEndian(n, 4));
      } else if !options.useBigInt64 {
        WriteU8(0xcf);                     // uint 64
        WriteU64(n);
        Associate(start, [U8(0xcf)], BigEndian(n, 8));
      } else {
        EncodeNumberAsFloat(obj);
      }
    }

    /** The negative branch of encodeNumber for a safe integer. */
    method EncodeNegative(obj: JsNumber)
      requires Valid() && !options.forceIntegerToFloat && IsSafeInteger(obj) && obj.n < 0
      modifies this, bytes
      ensures Appended(NumberBytes(options, obj))
    {
      ghost var start := Written();
      var n := obj.n;
      if n >= -0x20 {
        WriteU8(((0xe0 as bv8) | ((n + 0x20) as bv8)) as int);   // negative fixint
      } else if n >= -0x80 {
        WriteU8(0xd0);                     // int 8
        WriteI8(n);
        Associate(start, [U8(0xd0)], BigEndian(n, 1));
      } else if n >= -0x8000 {
        WriteU8(0xd1);                     // int 16
        WriteI16(n);
        Associate(start, [U8(0xd1)], BigEndian(n, 2));
      } else if n >= -0x8000_0000 {
        WriteU8(0xd2);                     // int 32
        WriteI32(n);
        Associate(start, [U8(0xd2)], BigEndian(n, 4));
      } else if !options.useBigInt64 {
        WriteU8(0xd3);                     // int 64
        WriteI64(n);
        Associate(start, [U8(0xd3)], BigEndian(n, 8));
      } else {
        EncodeNumberAsFloat(obj);
      }
    }

    method EncodeNumberAsFloat(obj: JsNumber)
      requires Valid()
      modifies this, bytes
      ensures Appended(FloatBytes(options, obj))
    {
      ghost var start := Written();
      if options.forceFloat32 {
        WriteU8(0xca);                     // float 32
        WriteF32(obj);
        Associate(start, [U8(0xca)], BigEndian(obj.f32, 4));
      } else {
        WriteU8(0xcb);                     // float 64
        WriteF64(obj);
        Associate(start, [U8(0xcb)], BigEndian(obj.f64, 8));
      }
    }

    method EncodeBigInt64(obj: int)
      requires Valid()
      modifies this, bytes
      ensures Appended(BigIntBytes(obj))
    {
      ghost var start := Written();
      if obj >= 0 {
        WriteU8(0xcf);                     // uint 64
        WriteBigUint64(obj);
        Associate(start, [U8(0xcf)], BigEndian(obj, 8));
      } else {
        WriteU8(0xd3);                     // int 64
        WriteBigInt64(obj);
        Associate(start, [U8(0xd3)], BigEndian(obj, 8));
      }
    }

    method WriteStringHeader(byteLength: nat) returns (r: Outcome)
      requires Valid()
      modifies this, bytes
      ensures Performed(StringHeader(byteLength), r)
    {
      ghost var start := Written();
      r := Pass;
      if byteLength < 32 {
        WriteU8(0xa0 + byteLength);        // fixstr
      } else if byteLength < 0x100 {
        WriteU8(0xd9);                     // str 8
        WriteU8(byteLength);
        Associate(start, [U8(0xd9)], [U8(byteLength)]);
      } else if byteLength < 0x1_0000 {
        WriteU8(0xda);                     // str 16
        WriteU16(byteLength);
        Associate(start, [U8(0xda)], BigEndian(byteLength, 2));
      } else if byteLength < UINT32_LIMIT {
        WriteU8(0xdb);                     // str 32
        WriteU32(byteLength);
        Associate(start, [U8(0xdb)], BigEndian(byteLength, 4));
      } else {
        r := Fail(TooLongString(byteLength));
      }
    }

    /**
     Reserves room for the longest header and the payload first, so that the UTF-8
     bytes can be stored straight into the buffer after the header.
     */
    method EncodeString(obj: JsString) returns (r: Outcome)
      requires Valid()
      modifies this, bytes
      ensures Performed(StringBytes(obj.utf8), r)
      ensures bytes.Length >= old(pos) + 5 + |obj.utf8|
    {
      var maxHeaderSize := 1 + 4;
      var byteLength := |obj.utf8|;     // utf8Count
      EnsureBufferSizeToWrite(maxHeaderSize + byteLength);
      ghost var reservedEnd := pos + maxHeaderSize + byteLength;
      r := WriteStringHeader(byteLength);
      if r.Fail? {
        return;
      }
      ghost var header := StringHeader(byteLength).value;
      assert pos + byteLength <= reservedEnd <= bytes.Length;
      Store(obj.utf8);                  // utf8Encode(obj, bytes, pos); pos += byteLength
      Associate(old(Written()), header, obj.utf8);
    }

    method EncodeBinary(obj: seq<byte>) returns (r: Outcome)
      requires Valid()
      modifies this, bytes
      ensures Performed(BinaryBytes(obj), r)
    {
      ghost var start := Written();
      var size := |obj|;
      if size < 0x100 {
        WriteU8(0xc4);                     // bin 8
        WriteU8(size);
        Associate(start, [U8(0xc4)], [U8(size)]);
      } else if size < 0x1_0000 {
        WriteU8(0xc5);                     // bin 16
        WriteU16(size);
        Associate(start, [U8(0xc5)], BigEndian(size, 2));
      } else if size < UINT32_LIMIT {
        WriteU8(0xc6);                     // bin 32
        WriteU32(size);
        Associate(start, [U8(0xc6)], BigEndian(size, 4));
      } else {
        return Fail(TooLargeBinary(size));
      }
      ghost var header := BinaryHeader(size).value;
      assert Written() == start + header;
      WriteU8a(obj);
      Associate(start, header, obj);
      r := Pass;
    }

    method DoEncode(obj: Value, depth: int) returns (r: Outcome)
      requires Valid()
      modifies this, bytes
      ensures Performed(EncodeValue(options, fromObj, obj, depth), r)
      decreases options.maxDepth - depth, 0, 0
    {
      if depth > options.maxDepth {
        return Fail(TooDeep(depth));
      }
      r := Pass;
      match obj
      case Nil => EncodeNil();
      case Undefined => EncodeNil();
      case Bool(b) => EncodeBoolean(b);
      case Num(x) =>
        if !options.forceIntegerToFloat {
          EncodeNumber(x);
        } else {
          EncodeNumberAsFloat(x);
        }
      case Str(s) => r := EncodeString(s);
      case BigInt(i) =>
        if options.useBigInt64 {
          EncodeBigInt64(i);
        } else {
          r := EncodeObject(obj, depth);
        }
      case Arr(_) => r := EncodeObject(obj, depth);
      case Bin(_) => r := EncodeObject(obj, depth);
      case Dict(_) => r := EncodeObject(obj, depth);
      case Other(_) => r := EncodeObject(obj, depth);
    }

    method EncodeObject(obj: Value, depth: int) returns (r: Outcome)
      requires Valid()
      modifies this, bytes
      ensures Performed(Format.EncodeObject(options, fromObj, obj, depth), r)
      decreases options.maxDepth - depth - 1, 3, 0
    {
      ghost var spec := Format.EncodeObject(options, fromObj, obj, depth);
      match obj
      case Arr(items) =>
        assert spec == Format.EncodeArray(options, fromObj, items, Nil, depth);
        r := EncodeArray(items, Nil, depth);
      case Bin(data) =>
        assert spec == BinaryBytes(data);
        r := EncodeBinary(data);
      case Dict(entries) =>
        assert spec == Format.EncodeMap(options, fromObj, entries, Nil, depth);
        r := EncodeMap(entries, Nil, depth);
      case _ =>
        match fromObj(obj)
        case AsDict(objectType, data) =>
          assert spec == Format.EncodeMap(options, fromObj, data, objectType, depth);
          r := EncodeMap(data, objectType, depth);
        case AsList(objectType, items) =>
          assert spec == Format.EncodeArray(options, fromObj, items, objectType, depth);
          r := EncodeArray(items, objectType, depth);
        case Refused(message) =>
          assert spec == Err(HookFailed(message));
          r := Fail(HookFailed(message));
    }

    /** The array part of encodeArray's header: fixarray, array 16 or array 32. */
    method WriteArrayHeader(size: nat) returns (r: Outcome)
      requires Valid()
      modifies this, bytes
      ensures Performed(ArrayHeader(size), r)
    {
      ghost var start := Written();
      r := Pass;
      if size < 16 {
        WriteU8(0x90 + size);              // fixarray
      } else if size < 0x1_0000 {
        WriteU8(0xdc);                     // array 16
        WriteU16(size);
        Associate(start, [U8(0xdc)], BigEndian(size, 2));
      } else if size < UINT32_LIMIT {
        WriteU8(0xdd);                     // array 32
        WriteU32(size);
        Associate(start, [U8(0xdd)], BigEndian(size, 4));
      } else {
        r := Fail(TooLargeArray(size));
      }
    }

    method EncodeArray(obj: seq<Value>, objectType: Value, depth: int) returns (r: Outcome)
      requires Valid()
      modifies this, bytes
      ensures Performed(Format.EncodeArray(options, fromObj, obj, objectType, depth), r)
      decreases options.maxDepth - depth - 1, 2, 0
    {
      var size := |obj|;
      r := WriteArrayHeader(size);
      if r.Fail? {
        return;
      }
      ghost var header := ArrayHeader(size).value;
      r := DoEncode(objectType, depth + 1);
      if r.Fail? {
        return;
      }
      ghost var slot := EncodeValue(options, fromObj, objectType, depth + 1).value;
      r := EncodeArrayItems(obj, depth + 1);
      if r.Pass? {
        ghost var body := EncodeItems(options, fromObj, obj, depth + 1).value;
        Associate(old(Written()), header, slot);
        Associate(old(Written()), header + slot, body);
      }
    }

    /** The loop of encodeArray: every item in order, stopping at the first failure. */
    method EncodeArrayItems(items: seq<Value>, depth: int) returns (r: Outcome)
      requires Valid()
      modifies this, bytes
      ensures Performed(EncodeItems(options, fromObj, items, depth), r)
      decreases options.maxDepth - depth, 1, |items|
    {
      r := Pass;
      var i := 0;
      while i < |items|
        invariant 0 <= i <= |items|
        invariant Kept() && r == Pass
        invariant EncodeItems(options, fromObj, items[..i], depth).Ok?
        invariant Written() == old(Written()) + EncodeItems(options, fromObj, items[..i], depth).value
      {
        ghost var done := EncodeItems(options, fromObj, items[..i], depth).value;
        assert items[..i + 1][..i] == items[..i];
        r := DoEncode(items[i], depth);
        if r.Fail? {
          ItemsPrefixFailure(options, fromObj, items, i + 1, depth);
          return;
        }
        Associate(old(Written()), done, EncodeValue(options, fromObj, items[i], depth).value);
        i := i + 1;
      }
      assert items[..i] == items;
    }

    /** countWithoutUndefined */
    method CountWithoutUndefined(keys: seq<Entry>) returns (count: nat)
      ensures count == CountDefined(keys)
    {
      count := 0;
      var i := 0;
      while i < |keys|
        invariant 0 <= i <= |keys|
        invariant count == CountDefined(keys[..i])
      {
        assert keys[..i + 1][..i] == keys[..i];
        if keys[i].value != Undefined {
          count := count + 1;
        }
        i := i + 1;
      }
      assert keys[..i] == keys;
    }

    /** The keys in the order encodeMap visits them, and the pair count its header holds. */
    method KeysAndSize(obj: seq<Entry>) returns (keys: seq<Entry>, size: nat)
      ensures keys == MapKeys(options, obj) && size == MapSize(options, keys)
    {
      keys := obj;
      if options.sortKeys {
        keys := SortEntries(keys);         // keys.sort()
      }
      if options.ignoreUndefined {
        size := CountWithoutUndefined(keys);
      } else {
        size := |keys|;
      }
    }

    /** The map part of encodeMap's header: fixmap, map 16 or map 32. */
    method WriteMapHeader(size: nat) returns (r: Outcome)
      requires Valid()
      modifies this, bytes
      ensures Performed(MapHeader(size), r)
    {
      ghost var start := Written();
      r := Pass;
      if size < 16 {
        WriteU8(0x80 + size);              // fixmap
      } else if size < 0x1_0000 {
        WriteU8(0xde);                     // map 16
        WriteU16(size);
        Associate(start, [U8(0xde)], BigEndian(size, 2));
      } else if size < UINT32_LIMIT {
        WriteU8(0xdf);                     // map 32
        WriteU32(size);
        Associate(start, [U8(0xdf)], BigEndian(size, 4));
      } else {
        r := Fail(TooLargeMap(size));
      }
    }

    method EncodeMap(obj: seq<Entry>, objectType: Value, depth: int) returns (r: Outcome)
      requires Valid()
      modifies this, bytes
      ensures Performed(Format.EncodeMap(options, fromObj, obj, objectType, depth), r)
      decreases options.maxDepth - depth - 1, 2, 0
    {
      var keys, size := KeysAndSize(obj);
      r := WriteMapHeader(size);
      if r.Fail? {
        return;
      }
      ghost var header := MapHeader(size).value;
      r := DoEncode(objectType, depth + 1);
      if r.Fail? {
        return;
      }
      ghost var slot := EncodeValue(options, fromObj, objectType, depth + 1).value;
      r := EncodeMapEntries(keys, depth + 1);
      if r.Pass? {
        ghost var body := EncodeEntries(options, fromObj, keys, depth + 1).value;
        Associate(old(Written()), header, slot);
        Associate(old(Written()), header + slot, body);
      }
    }

    /** The loop of encodeMap: every pair in key order, stopping at the first failure. */
    method EncodeMapEntries(keys: seq<Entry>, depth: int) returns (r: Outcome)
      requires Valid()
      modifies this, bytes
      ensures Performed(EncodeEntries(options, fromObj, keys, depth), r)
      decreases options.maxDepth - depth, 1, |keys|
    {
      r := Pass;
      var i := 0;
      while i < |keys|
        invariant 0 <= i <= |keys|
        invariant Kept() && r == Pass
        invariant EncodeEntries(options, fromObj, keys[..i], depth).Ok?
        invariant Written() == old(Written()) + EncodeEntries(options, fromObj, keys[..i], depth).value
      {
        ghost var done := EncodeEntries(options, fromObj, keys[..i], depth).value;
        assert keys[..i + 1][..i] == keys[..i];
        r := EncodeKeyValue(keys[i], depth);
        if r.Fail? {
          EntriesPrefixFailure(options, fromObj, keys, i + 1, depth);
          return;
        }
        Associate(old(Written()), done, EncodeEntry(options, fromObj, keys[i], depth).value);
        i := i + 1;
      }
      assert keys[..i] == keys;
    }

    /** One turn of encodeMap's loop: a skipped pair writes nothing, any other the key and the value. */
    method EncodeKeyValue(e: Entry, depth: int) returns (r: Outcome)
      requires Valid()
      modifies this, bytes
      ensures Performed(EncodeEntry(options, fromObj, e, depth), r)
      decreases options.maxDepth - depth, 0, 1
    {
      r := Pass;
      if !(options.ignoreUndefined && e.value == Undefined) {
        r := EncodeString(e.key);
        if r.Fail? {
          return;
        }
        ghost var key := StringBytes(e.key.utf8).value;
        r := DoEncode(e.value, depth);
        if r.Fail? {
          return;
        }
        Associate(old(Written()), key, EncodeValue(options, fromObj, e.value, depth).value);
      }
    }
  }

  /** Regrouping a concatenation, the step that lines two writes up with one specified chunk. */
  lemma Associate(a: seq<byte>, b: seq<byte>, c: seq<byte>)
    ensures a + b + c == a + (b + c)
  {
  }

  /** Once a prefix of the items fails, the whole sequence fails with the same error. */
  lemma {:induction false} ItemsPrefixFailure(o: Options, fromObj: Value -> Envelope, items: seq<Value>, k: nat, depth: int)
    requires k <= |items|
    requires EncodeItems(o, fromObj, items[..k], depth).Err?
    ensures EncodeItems(o, fromObj, items, depth) == EncodeItems(o, fromObj, items[..k], depth)
    decreases |items|
  {
    if k < |items| {
      var init := items[..|items| - 1];
      assert init[..k] == items[..k];
      ItemsPrefixFailure(o, fromObj, init, k, depth);
    } else {
      assert items[..k] == items;
    }
  }

  /** Once a prefix of the keys fails, the whole map body fails with the same error. */
  lemma {:induction false} EntriesPrefixFailure(o: Options, fromObj: Value -> Envelope, keys: seq<Entry>, k: nat, depth: int)
    requires k <= |keys|
    requires EncodeEntries(o, fromObj, keys[..k], depth).Err?
    ensures EncodeEntries(o, fromObj, keys, depth) == EncodeEntries(o, fromObj, keys[..k], depth)
    decreases |keys|
  {
    if k < |keys| {
      var init := keys[..|keys| - 1];
      assert init[..k] == keys[..k];
      EntriesPrefixFailure(o, fromObj, init, k, depth);
    } else {
      assert keys[..k] == keys;
    }
  }
}
