/**
 Every successful encoding is exactly one MessagePack object of this dialect: a
 reader that knows only the format tables steps over it and lands right after it,
 whatever follows. In particular an array header of count n is followed by exactly
 n + 1 objects (the object-type slot, then the items) and a map header of count n
 by exactly 2n + 1 (the slot, then n key/value pairs): the header counts agree with
 what is written after them.
 */
module Framing {
  import opened Bytes
  import opened Values
  import opened Format
  import opened Reader
  import opened ScalarFormats
  import opened MapFacts

  /**
   b is exactly n whole objects: a reader that still has j >= n objects to step over
   when it reaches b has j - n left when it leaves b, whatever follows.
   */
  ghost predicate Objects(b: seq<byte>, n: nat) {
    forall rest: seq<byte>, j: nat :: j >= n ==> Skip(b + rest, j) == Skip(rest, j - n)
  }

  /** b is one header (with its payload) that announces c objects after it, whatever follows. */
  ghost predicate Headed(b: seq<byte>, c: nat) {
    forall rest: seq<byte> :: ReadHead(b + rest) == Some(Head(|b|, c))
  }

  lemma NoObjects()
    ensures Objects([], 0)
  {
    forall rest: seq<byte>, j: nat | j >= 0
      ensures Skip([] + rest, j) == Skip(rest, j - 0)
    {
      assert [] + rest == rest;
    }
  }

  /** Two runs of objects, one after the other. */
  lemma Concat(a: seq<byte>, m: nat, b: seq<byte>, n: nat, total: nat)
    requires Objects(a, m) && Objects(b, n) && total == m + n
    ensures Objects(a + b, total)
  {
    forall rest: seq<byte>, j: nat | j >= total
      ensures Skip((a + b) + rest, j) == Skip(rest, j - total)
    {
      assert (a + b) + rest == a + (b + rest);
      assert Skip(a + (b + rest), j) == Skip(b + rest, j - m);
      assert Skip(b + rest, j - m) == Skip(rest, j - m - n);
    }
  }

  /** One step of the reader: it steps over the first header and adds the objects it announces. */
  lemma SkipStep(bs: seq<byte>, size: nat, c: nat, j: nat)
    requires ReadHead(bs) == Some(Head(size, c)) && size <= |bs| && j >= 1
    ensures Skip(bs, j) == Skip(bs[size..], j - 1 + c)
  {
  }

  /** A header announcing c objects, followed by exactly c objects, is one object. */
  lemma Wrap(h: seq<byte>, c: nat, t: seq<byte>)
    requires Headed(h, c) && Objects(t, c)
    ensures Objects(h + t, 1)
  {
    forall rest: seq<byte>, j: nat | j >= 1
      ensures Skip((h + t) + rest, j) == Skip(rest, j - 1)
    {
      var bs := h + (t + rest);
      assert (h + t) + rest == bs;
      assert ReadHead(bs) == Some(Head(|h|, c));
      assert bs[|h|..] == t + rest;
      SkipStep(bs, |h|, c, j);
      assert Skip(t + rest, j - 1 + c) == Skip(rest, j - 1);
    }
  }

  /** A header announcing 1 + n objects, one object, then n more: one object in all. */
  lemma WrapSlot(h: seq<byte>, slot: seq<byte>, body: seq<byte>, n: nat)
    requires Headed(h, 1 + n) && Objects(slot, 1) && Objects(body, n)
    ensures Objects(h + slot + body, 1)
  {
    assert h + slot + body == h + (slot + body);
    Concat(slot, 1, body, n, 1 + n);
    Wrap(h, 1 + n, slot + body);
  }

  /** b starts with a length header of family f holding n, and exactly m objects follow the header. */
  ghost predicate Counted(f: Family, b: seq<byte>, n: nat, m: nat) {
    ReadLength(f, b).Some? && ReadLength(f, b).value.0 == n && Objects(b[ReadLength(f, b).value.1..], m)
  }

  /** A length header of family f holding n, followed by m objects. */
  lemma Layout(f: Family, h: seq<byte>, slot: seq<byte>, body: seq<byte>, n: nat, m: nat, b: seq<byte>)
    requires b == h + slot + body
    requires ReadLength(f, h + (slot + body)) == Some((n, |h|)) && Objects(slot + body, m)
    ensures Counted(f, b, n, m)
  {
    assert b == h + (slot + body);
    assert (h + (slot + body))[|h|..] == slot + body;
  }

  /** A header that announces nothing after it is one object. */
  lemma Leaf(b: seq<byte>)
    requires Headed(b, 0)
    ensures Objects(b, 1)
  {
    NoObjects();
    Wrap(b, 0, []);
    assert b + [] == b;
  }

  lemma HeadOfConstant(b: seq<byte>)
    requires b == NilBytes() || b == BooleanBytes(false) || b == BooleanBytes(true)
    ensures Headed(b, 0)
  {
    forall rest: seq<byte>
      ensures ReadHead(b + rest) == Some(Head(|b|, 0))
    {
    }
  }

  lemma HeadOfNumber(o: Options, x: JsNumber)
    ensures Headed(JsNumberBytes(o, x), 0)
  {
    forall rest: seq<byte>
      ensures ReadHead(JsNumberBytes(o, x) + rest) == Some(Head(|JsNumberBytes(o, x)|, 0))
    {
      NumberHead(o, x, rest);
    }
  }

  lemma NumberHead(o: Options, x: JsNumber, rest: seq<byte>)
    ensures ReadHead(JsNumberBytes(o, x) + rest) == Some(Head(|JsNumberBytes(o, x)|, 0))
  {
    if IntegerPath(o, x) {
      IntegerRoundTrip(o, x, rest);
      IntKindOf(JsNumberBytes(o, x) + rest);
    } else {
      FloatPath(o, x);
      assert (JsNumberBytes(o, x) + rest)[0] == JsNumberBytes(o, x)[0];
    }
  }

  lemma HeadOfBigInt(i: int)
    ensures Headed(BigIntBytes(i), 0)
  {
    forall rest: seq<byte>
      ensures ReadHead(BigIntBytes(i) + rest) == Some(Head(|BigIntBytes(i)|, 0))
    {
      BigIntHead(i, rest);
    }
  }

  lemma BigIntHead(i: int, rest: seq<byte>)
    ensures ReadHead(BigIntBytes(i) + rest) == Some(Head(9, 0))
  {
    var bs := BigIntBytes(i) + rest;
    assert bs[0] == BigIntBytes(i)[0];
  }

  lemma HeadOfString(utf8: seq<byte>)
    requires StringBytes(utf8).Ok?
    ensures Headed(StringBytes(utf8).value, 0)
  {
    forall rest: seq<byte>
      ensures ReadHead(StringBytes(utf8).value + rest) == Some(Head(|StringBytes(utf8).value|, 0))
    {
      var h := StringHeader(|utf8|).value;
      assert StringBytes(utf8).value + rest == h + (utf8 + rest);
      StringHeaderRoundTrip(|utf8|, utf8 + rest);
      LengthKindOf(StrFamily, h + (utf8 + rest));
    }
  }

  lemma HeadOfBinary(data: seq<byte>)
    requires BinaryBytes(data).Ok?
    ensures Headed(BinaryBytes(data).value, 0)
  {
    forall rest: seq<byte>
      ensures ReadHead(BinaryBytes(data).value + rest) == Some(Head(|BinaryBytes(data).value|, 0))
    {
      var h := BinaryHeader(|data|).value;
      assert BinaryBytes(data).value + rest == h + (data + rest);
      BinaryHeaderRoundTrip(|data|, data + rest);
      LengthKindOf(BinFamily, h + (data + rest));
    }
  }

  lemma HeadOfArrayHeader(n: nat)
    requires n < UINT32_LIMIT
    ensures ArrayHeader(n).Ok?
    ensures Headed(ArrayHeader(n).value, 1 + n)
  {
    forall rest: seq<byte>
      ensures ReadHead(ArrayHeader(n).value + rest) == Some(Head(|ArrayHeader(n).value|, 1 + n))
    {
      ArrayHeaderRoundTrip(n, rest);
      LengthKindOf(ArrayFamily, ArrayHeader(n).value + rest);
    }
  }

  lemma HeadOfMapHeader(n: nat)
    requires n < UINT32_LIMIT
    ensures MapHeader(n).Ok?
    ensures Headed(MapHeader(n).value, 1 + 2 * n)
  {
    forall rest: seq<byte>
      ensures ReadHead(MapHeader(n).value + rest) == Some(Head(|MapHeader(n).value|, 1 + 2 * n))
    {
      MapHeaderRoundTrip(n, rest);
      LengthKindOf(MapFamily, MapHeader(n).value + rest);
    }
  }

  /** The bytes doEncode writes for a value are one object. */
  lemma {:induction false} ValueFrame(o: Options, fromObj: Value -> Envelope, v: Value, depth: int)
    requires EncodeValue(o, fromObj, v, depth).Ok?
    ensures Objects(EncodeValue(o, fromObj, v, depth).value, 1)
    decreases o.maxDepth - depth, 0, 0
  {
    var b := EncodeValue(o, fromObj, v, depth).value;
    assert depth <= o.maxDepth;
    match v
    case Nil =>
      HeadOfConstant(b);
      Leaf(b);
    case Undefined =>
      HeadOfConstant(b);
      Leaf(b);
    case Bool(x) =>
      HeadOfConstant(b);
      Leaf(b);
    case Num(x) =>
      HeadOfNumber(o, x);
      Leaf(b);
    case Str(s) =>
      HeadOfString(s.utf8);
      Leaf(b);
    case BigInt(i) =>
      if o.useBigInt64 {
        HeadOfBigInt(i);
        Leaf(b);
      } else {
        ObjectFrame(o, fromObj, v, depth);
      }
    case Bin(_) => ObjectFrame(o, fromObj, v, depth);
    case Arr(_) => ObjectFrame(o, fromObj, v, depth);
    case Dict(_) => ObjectFrame(o, fromObj, v, depth);
    case Other(_) => ObjectFrame(o, fromObj, v, depth);
  }

  lemma {:induction false} ObjectFrame(o: Options, fromObj: Value -> Envelope, v: Value, depth: int)
    requires EncodeObject(o, fromObj, v, depth).Ok?
    ensures Objects(EncodeObject(o, fromObj, v, depth).value, 1)
    decreases o.maxDepth - depth - 1, 3, 0
  {
    match v
    case Arr(items) => ArrayFrame(o, fromObj, items, Nil, depth);
    case Bin(data) =>
      HeadOfBinary(data);
      Leaf(BinaryBytes(data).value);
    case Dict(entries) => MapFrame(o, fromObj, entries, Nil, depth);
    case _ =>
      match fromObj(v)
      case AsDict(objectType, data) => MapFrame(o, fromObj, data, objectType, depth);
      case AsList(objectType, items) => ArrayFrame(o, fromObj, items, objectType, depth);
      case Refused(_) => assert false;
  }

  /** An array: its header, then exactly count + 1 objects. */
  lemma {:induction false} ArrayFrame(o: Options, fromObj: Value -> Envelope, items: seq<Value>, objectType: Value,
                                      depth: int)
    requires EncodeArray(o, fromObj, items, objectType, depth).Ok?
    ensures Objects(EncodeArray(o, fromObj, items, objectType, depth).value, 1)
    decreases o.maxDepth - depth - 1, 2, 0
  {
    var h := ArrayHeader(|items|).value;
    var slot := EncodeValue(o, fromObj, objectType, depth + 1).value;
    var body := EncodeItems(o, fromObj, items, depth + 1).value;
    assert EncodeArray(o, fromObj, items, objectType, depth).value == h + slot + body;
    HeadOfArrayHeader(|items|);
    ValueFrame(o, fromObj, objectType, depth + 1);
    ItemsFrame(o, fromObj, items, depth + 1);
    WrapSlot(h, slot, body, |items|);
  }

  /** The items of an array are one object each. */
  lemma {:induction false} ItemsFrame(o: Options, fromObj: Value -> Envelope, items: seq<Value>, depth: int)
    requires EncodeItems(o, fromObj, items, depth).Ok?
    ensures Objects(EncodeItems(o, fromObj, items, depth).value, |items|)
    decreases o.maxDepth - depth, 1, |items|
  {
    if items == [] {
      NoObjects();
    } else {
      var init := items[..|items| - 1];
      var last := items[|items| - 1];
      var bi := EncodeItems(o, fromObj, init, depth).value;
      var bl := EncodeValue(o, fromObj, last, depth).value;
      assert EncodeItems(o, fromObj, items, depth).value == bi + bl;
      ItemsFrame(o, fromObj, init, depth);
      ValueFrame(o, fromObj, last, depth);
      Concat(bi, |init|, bl, 1, |items|);
    }
  }

  /** A map's bytes: its header for the pairs written, the slot, then the pairs. */
  lemma MapParts(o: Options, fromObj: Value -> Envelope, entries: seq<Entry>, objectType: Value, depth: int)
    requires EncodeMap(o, fromObj, entries, objectType, depth).Ok?
    ensures var keys := MapKeys(o, entries);
      MapSize(o, keys) == |EmittedEntries(o, keys)| < UINT32_LIMIT
      && EncodeValue(o, fromObj, objectType, depth + 1).Ok?
      && EncodeEntries(o, fromObj, keys, depth + 1).Ok?
      && EncodeMap(o, fromObj, entries, objectType, depth).value
         == MapHeader(MapSize(o, keys)).value
            + EncodeValue(o, fromObj, objectType, depth + 1).value + EncodeEntries(o, fromObj, keys, depth + 1).value
  {
    MapSizeCountsEmitted(o, MapKeys(o, entries));
  }

  /** A map: its header, then exactly 2 * count + 1 objects. */
  lemma {:induction false} MapFrame(o: Options, fromObj: Value -> Envelope, entries: seq<Entry>, objectType: Value,
                                    depth: int)
    requires EncodeMap(o, fromObj, entries, objectType, depth).Ok?
    ensures Objects(EncodeMap(o, fromObj, entries, objectType, depth).value, 1)
    decreases o.maxDepth - depth - 1, 2, 0
  {
    MapParts(o, fromObj, entries, objectType, depth);
    PairsFrame(o, fromObj, MapKeys(o, entries), objectType, depth);
  }

  /** The header for the pairs written, the slot and the pairs are one object. */
  lemma {:induction false} PairsFrame(o: Options, fromObj: Value -> Envelope, keys: seq<Entry>, objectType: Value,
                                      depth: int)
    requires MapSize(o, keys) < UINT32_LIMIT
    requires EncodeValue(o, fromObj, objectType, depth + 1).Ok? && EncodeEntries(o, fromObj, keys, depth + 1).Ok?
    ensures Objects(MapHeader(MapSize(o, keys)).value
                    + EncodeValue(o, fromObj, objectType, depth + 1).value + EncodeEntries(o, fromObj, keys, depth + 1).value, 1)
    decreases o.maxDepth - depth - 1, 1, |keys| + 1
  {
    var size := MapSize(o, keys);
    var slot := EncodeValue(o, fromObj, objectType, depth + 1).value;
    var body := EncodeEntries(o, fromObj, keys, depth + 1).value;
    MapSizeCountsEmitted(o, keys);
    HeadOfMapHeader(size);
    ValueFrame(o, fromObj, objectType, depth + 1);
    EntriesFrame(o, fromObj, keys, depth + 1);
    WrapSlot(MapHeader(size).value, slot, body, 2 * size);
  }

  /** The pairs of a map are two objects for each pair written. */
  lemma {:induction false} EntriesFrame(o: Options, fromObj: Value -> Envelope, keys: seq<Entry>, depth: int)
    requires EncodeEntries(o, fromObj, keys, depth).Ok?
    ensures Objects(EncodeEntries(o, fromObj, keys, depth).value, 2 * |EmittedEntries(o, keys)|)
    decreases o.maxDepth - depth, 1, |keys|
  {
    if keys == [] {
      NoObjects();
    } else {
      var init := keys[..|keys| - 1];
      var last := keys[|keys| - 1];
      var bi := EncodeEntries(o, fromObj, init, depth).value;
      var bl := EncodeEntry(o, fromObj, last, depth).value;
      assert EncodeEntries(o, fromObj, keys, depth).value == bi + bl;
      EntriesFrame(o, fromObj, init, depth);
      EntryFrame(o, fromObj, last, depth);
      Concat(bi, 2 * |EmittedEntries(o, init)|, bl, if Emitted(o, last) then 2 else 0,
             2 * |EmittedEntries(o, keys)|);
    }
  }

  /** A pair written is its key, as a string, then its value; a skipped pair is nothing. */
  lemma {:induction false} EntryFrame(o: Options, fromObj: Value -> Envelope, e: Entry, depth: int)
    requires EncodeEntry(o, fromObj, e, depth).Ok?
    ensures Objects(EncodeEntry(o, fromObj, e, depth).value, if Emitted(o, e) then 2 else 0)
    decreases o.maxDepth - depth, 0, 1
  {
    if !Emitted(o, e) {
      NoObjects();
    } else {
      var key := StringBytes(e.key.utf8).value;
      var value := EncodeValue(o, fromObj, e.value, depth).value;
      assert EncodeEntry(o, fromObj, e, depth).value == key + value;
      HeadOfString(e.key.utf8);
      Leaf(key);
      ValueFrame(o, fromObj, e.value, depth);
      Concat(key, 1, value, 1, 2);
    }
  }

  /** encode's result is exactly one object: a reader steps over all of it and nothing more. */
  lemma EncodingIsOneObject(o: Options, fromObj: Value -> Envelope, v: Value, rest: seq<byte>)
    requires Encode(o, fromObj, v).Ok?
    ensures Objects(Encode(o, fromObj, v).value, 1)
    ensures Skip(Encode(o, fromObj, v).value + rest, 1) == Some(rest)
  {
    ValueFrame(o, fromObj, v, 1);
    assert Skip(Encode(o, fromObj, v).value + rest, 1) == Skip(rest, 0);
  }

  /** The array header holds the item count, and exactly that many objects plus the slot follow it. */
  lemma ArrayLayout(o: Options, fromObj: Value -> Envelope, items: seq<Value>, objectType: Value, depth: int)
    requires EncodeArray(o, fromObj, items, objectType, depth).Ok?
    ensures Counted(ArrayFamily, EncodeArray(o, fromObj, items, objectType, depth).value, |items|, |items| + 1)
  {
    var b := EncodeArray(o, fromObj, items, objectType, depth).value;
    var h := ArrayHeader(|items|).value;
    var slot := EncodeValue(o, fromObj, objectType, depth + 1).value;
    var body := EncodeItems(o, fromObj, items, depth + 1).value;
    assert b == h + slot + body;
    ArrayHeaderRoundTrip(|items|, slot + body);
    ValueFrame(o, fromObj, objectType, depth + 1);
    ItemsFrame(o, fromObj, items, depth + 1);
    Concat(slot, 1, body, |items|, |items| + 1);
    Layout(ArrayFamily, h, slot, body, |items|, |items| + 1, b);
  }

  /** The map header holds the number of pairs written, and exactly twice that many objects plus the slot follow it. */
  lemma MapLayout(o: Options, fromObj: Value -> Envelope, entries: seq<Entry>, objectType: Value, depth: int)
    requires EncodeMap(o, fromObj, entries, objectType, depth).Ok?
    ensures var n := |EmittedEntries(o, MapKeys(o, entries))|;
      Counted(MapFamily, EncodeMap(o, fromObj, entries, objectType, depth).value, n, 2 * n + 1)
  {
    MapParts(o, fromObj, entries, objectType, depth);
    PairsLayout(o, fromObj, MapKeys(o, entries), objectType, depth, EncodeMap(o, fromObj, entries, objectType, depth).value);
  }

  /** b, made of the header for the pairs written, the slot and the pairs, is laid out as MapLayout says. */
  lemma PairsLayout(o: Options, fromObj: Value -> Envelope, keys: seq<Entry>, objectType: Value, depth: int, b: seq<byte>)
    requires MapSize(o, keys) < UINT32_LIMIT
    requires EncodeValue(o, fromObj, objectType, depth + 1).Ok? && EncodeEntries(o, fromObj, keys, depth + 1).Ok?
    requires b == MapHeader(MapSize(o, keys)).value
                 + EncodeValue(o, fromObj, objectType, depth + 1).value
                 + EncodeEntries(o, fromObj, keys, depth + 1).value
    ensures Counted(MapFamily, b, |EmittedEntries(o, keys)|, 2 * |EmittedEntries(o, keys)| + 1)
  {
    var size := MapSize(o, keys);
    var h := MapHeader(size).value;
    var slot := EncodeValue(o, fromObj, objectType, depth + 1).value;
    var body := EncodeEntries(o, fromObj, keys, depth + 1).value;
    MapSizeCountsEmitted(o, keys);
    MapHeaderRoundTrip(size, slot + body);
    SlotAndPairs(o, fromObj, keys, objectType, depth, slot, body);
    Layout(MapFamily, h, slot, body, size, 2 * |EmittedEntries(o, keys)| + 1, b);
  }

  /** After a map header: the slot, then two objects per pair written. */
  lemma SlotAndPairs(o: Options, fromObj: Value -> Envelope, keys: seq<Entry>, objectType: Value, depth: int,
                     slot: seq<byte>, body: seq<byte>)
    requires EncodeValue(o, fromObj, objectType, depth + 1) == Ok(slot)
    requires EncodeEntries(o, fromObj, keys, depth + 1) == Ok(body)
    ensures Objects(slot + body, 2 * |EmittedEntries(o, keys)| + 1)
  {
    ValueFrame(o, fromObj, objectType, depth + 1);
    EntriesFrame(o, fromObj, keys, depth + 1);
    Concat(slot, 1, body, 2 * |EmittedEntries(o, keys)|, 2 * |EmittedEntries(o, keys)| + 1);
  }

  /** A length header of family f followed by nil: the byte right after the header is nil. */
  lemma NilAfterHeader(f: Family, h: seq<byte>, body: seq<byte>, n: nat)
    requires ReadLength(f, h + ([0xc0] + body)) == Some((n, |h|))
    ensures ReadLength(f, h + [0xc0] + body).Some?
    ensures var at := ReadLength(f, h + [0xc0] + body).value.1;
      at < |h + [0xc0] + body| && (h + [0xc0] + body)[at] == 0xc0
  {
    assert h + [0xc0] + body == h + ([0xc0] + body);
  }

  /** A built-in array or plain object carries nil in its object-type slot, right after the header. */
  lemma BuiltInSlotIsNil(o: Options, fromObj: Value -> Envelope, v: Value, depth: int)
    requires v.Arr? || v.Dict?
    requires EncodeObject(o, fromObj, v, depth).Ok?
    ensures var f := if v.Arr? then ArrayFamily else MapFamily;
      var b := EncodeObject(o, fromObj, v, depth).value;
      ReadLength(f, b).Some? && ReadLength(f, b).value.1 < |b| && b[ReadLength(f, b).value.1] == 0xc0
  {
    assert EncodeValue(o, fromObj, Nil, depth + 1) == Ok([0xc0]);
    if v.Arr? {
      var h := ArrayHeader(|v.items|).value;
      var body := EncodeItems(o, fromObj, v.items, depth + 1).value;
      assert EncodeObject(o, fromObj, v, depth).value == h + [0xc0] + body;
      ArrayHeaderRoundTrip(|v.items|, [0xc0] + body);
      NilAfterHeader(ArrayFamily, h, body, |v.items|);
    } else {
      MapParts(o, fromObj, v.entries, Nil, depth);
      var keys := MapKeys(o, v.entries);
      var h := MapHeader(MapSize(o, keys)).value;
      var body := EncodeEntries(o, fromObj, keys, depth + 1).value;
      MapHeaderRoundTrip(MapSize(o, keys), [0xc0] + body);
      NilAfterHeader(MapFamily, h, body, MapSize(o, keys));
    }
  }
}
