/**
 The byte strings the repository's tests expect from encode, derived from the model.
 The hook is never consulted by these values, so every vector holds for any hook.
 */
module Vectors {
  import opened Bytes
  import opened Values
  import opened KeyOrder
  import opened Format
  import opened MapFacts
  import opened ScalarFormats

  const NO_OPTIONS := EncoderOptions(None, None, None, None, None, None, None)

  /** The options of a control object that sets nothing. */
  const DEFAULTS := Resolve(NO_OPTIONS)

  /** A string of ASCII characters: one code unit and one UTF-8 byte each. */
  function Ascii(s: seq<byte>): (r: JsString)
    ensures |r.units| == |s| && r.utf8 == s
    ensures forall i :: 0 <= i < |s| ==> r.units[i] as int == s[i] as int
  {
    JsString(seq(|s|, i requires 0 <= i < |s| => s[i] as int as CodeUnit), s)
  }

  /** The number 3 with its IEEE-754 double and single images, 0x4008000000000000 and 0x40400000. */
  const THREE := Integral(3, 0x4008_0000_0000_0000, 0x4040_0000)

  /** encode(3) is the positive fixint 0x03 by default and with forceIntegerToFloat unset. */
  lemma IntegerThree(fromObj: Value -> Envelope)
    ensures Encode(DEFAULTS, fromObj, Num(THREE)) == Ok([0x03])
    ensures Encode(Resolve(NO_OPTIONS.(forceIntegerToFloat := Some(false))), fromObj, Num(THREE)) == Ok([0x03])
  {
  }

  /** encode(3) with forceIntegerToFloat is float 64. */
  lemma IntegerThreeAsDouble(fromObj: Value -> Envelope)
    ensures Encode(Resolve(NO_OPTIONS.(forceIntegerToFloat := Some(true))), fromObj, Num(THREE))
         == Ok([0xcb, 0x40, 0x08, 0x00, 0x00, 0x00, 0x00, 0x00, 0x00])
  {
    var o := Resolve(NO_OPTIONS.(forceIntegerToFloat := Some(true)));
    var image := [0x40, 0x08, 0x00, 0x00, 0x00, 0x00, 0x00, 0x00];
    assert o.forceIntegerToFloat && !o.forceFloat32;
    FloatPath(o, THREE);
    DoubleImageOfThree();
    assert JsNumberBytes(o, THREE) == [0xcb] + image;
    assert [0xcb] + image == [0xcb, 0x40, 0x08, 0x00, 0x00, 0x00, 0x00, 0x00, 0x00];
    assert Encode(o, fromObj, Num(THREE)) == Ok(JsNumberBytes(o, THREE));
  }

  /** encode(3) with forceIntegerToFloat and forceFloat32 is float 32. */
  lemma IntegerThreeAsSingle(fromObj: Value -> Envelope)
    ensures Encode(Resolve(NO_OPTIONS.(forceIntegerToFloat := Some(true), forceFloat32 := Some(true))), fromObj, Num(THREE))
         == Ok([0xca, 0x40, 0x40, 0x00, 0x00])
  {
    var o := Resolve(NO_OPTIONS.(forceIntegerToFloat := Some(true), forceFloat32 := Some(true)));
    var image := [0x40, 0x40, 0x00, 0x00];
    assert o.forceIntegerToFloat && o.forceFloat32;
    FloatPath(o, THREE);
    SingleImageOfThree();
    assert JsNumberBytes(o, THREE) == [0xca] + image;
    assert [0xca] + image == [0xca, 0x40, 0x40, 0x00, 0x00];
    assert Encode(o, fromObj, Num(THREE)) == Ok(JsNumberBytes(o, THREE));
  }

  /** The double image of 3, most significant byte first. */
  lemma DoubleImageOfThree()
    ensures BigEndian(0x4008_0000_0000_0000, 8) == [0x40, 0x08, 0x00, 0x00, 0x00, 0x00, 0x00, 0x00]
  {
    assert BigEndian(0x4008, 2) == [0x40, 0x08];
    assert BigEndian(0x4008_0000, 4) == [0x40, 0x08, 0x00, 0x00];
    assert BigEndian(0x4008_0000_0000, 6) == [0x40, 0x08, 0x00, 0x00, 0x00, 0x00];
  }

  /** The single image of 3, most significant byte first. */
  lemma SingleImageOfThree()
    ensures BigEndian(0x4040_0000, 4) == [0x40, 0x40, 0x00, 0x00]
  {
    assert BigEndian(0x4040, 2) == [0x40, 0x40];
  }

  /** An empty array: header 0x90, then nil in the object-type slot. */
  lemma EmptyArray(fromObj: Value -> Envelope)
    ensures Encode(DEFAULTS, fromObj, Arr([])) == Ok([0x90, 0xc0])
  {
    assert ArrayHeader(0) == Ok([0x90]);
    assert EncodeValue(DEFAULTS, fromObj, Nil, 2) == Ok([0xc0]);
    assert EncodeItems(DEFAULTS, fromObj, [], 2) == Ok([]);
    assert EncodeArray(DEFAULTS, fromObj, [], Nil, 1) == Ok([0x90] + [0xc0] + []);
    assert [0x90] + [0xc0] + [] == [0x90, 0xc0];
    assert Encode(DEFAULTS, fromObj, Arr([])) == EncodeObject(DEFAULTS, fromObj, Arr([]), 1);
  }

  /** [null]: header 0x91, the nil slot, then the nil item. */
  lemma ArrayOfNil(fromObj: Value -> Envelope)
    ensures Encode(DEFAULTS, fromObj, Arr([Nil])) == Ok([0x91, 0xc0, 0xc0])
  {
    assert ArrayHeader(1) == Ok([0x91]);
    assert EncodeValue(DEFAULTS, fromObj, Nil, 2) == Ok([0xc0]);
    assert [Nil][..0] == [];
    assert EncodeItems(DEFAULTS, fromObj, [], 2) == Ok([]);
    assert EncodeItems(DEFAULTS, fromObj, [Nil], 2) == Ok([] + [0xc0]);
    assert EncodeArray(DEFAULTS, fromObj, [Nil], Nil, 1) == Ok([0x91] + [0xc0] + ([] + [0xc0]));
    assert [0x91] + [0xc0] + ([] + [0xc0]) == [0x91, 0xc0, 0xc0];
    assert Encode(DEFAULTS, fromObj, Arr([Nil])) == EncodeObject(DEFAULTS, fromObj, Arr([Nil]), 1);
  }

  const FOO := Ascii([0x66, 0x6f, 0x6f])
  const BAR := Ascii([0x62, 0x61, 0x72])

  /** A string of three ASCII characters is fixstr 0xa3, then its bytes. */
  lemma ShortString(s: JsString)
    requires |s.utf8| == 3
    ensures StringBytes(s.utf8) == Ok([0xa3] + s.utf8)
  {
    assert StringHeader(3) == Ok([0xa3]);
  }

  /** { foo: "bar" }: header 0x81, the nil slot, then the key and the value as fixstr. */
  lemma FooBar(fromObj: Value -> Envelope)
    ensures Encode(DEFAULTS, fromObj, Dict([Entry(FOO, Str(BAR))]))
         == Ok([0x81, 0xc0, 0xa3, 0x66, 0x6f, 0x6f, 0xa3, 0x62, 0x61, 0x72])
  {
    var e := Entry(FOO, Str(BAR));
    var pairs := [0xa3, 0x66, 0x6f, 0x6f, 0xa3, 0x62, 0x61, 0x72];
    FooBarPair(fromObj);
    assert MapKeys(DEFAULTS, [e]) == [e];
    assert MapSize(DEFAULTS, [e]) == 1;
    assert MapHeader(1) == Ok([0x81]);
    assert EncodeValue(DEFAULTS, fromObj, Nil, 2) == Ok([0xc0]);
    assert EncodeMap(DEFAULTS, fromObj, [e], Nil, 1) == Ok([0x81] + [0xc0] + pairs);
    assert [0x81] + [0xc0] + pairs == [0x81, 0xc0, 0xa3, 0x66, 0x6f, 0x6f, 0xa3, 0x62, 0x61, 0x72];
    PlainObject(DEFAULTS, fromObj, [e]);
  }

  /** "foo" and "bar" as fixstr. */
  lemma FooAndBar()
    ensures StringBytes(FOO.utf8) == Ok([0xa3, 0x66, 0x6f, 0x6f])
    ensures StringBytes(BAR.utf8) == Ok([0xa3, 0x62, 0x61, 0x72])
  {
    assert FOO.utf8 == [0x66, 0x6f, 0x6f] && BAR.utf8 == [0x62, 0x61, 0x72];
    ShortString(FOO);
    ShortString(BAR);
    var tag: seq<byte> := [0xa3];
    assert tag + FOO.utf8 == [0xa3, 0x66, 0x6f, 0x6f];
    assert tag + BAR.utf8 == [0xa3, 0x62, 0x61, 0x72];
  }

  /** The one pair of { foo: "bar" } at depth 2: both strings as fixstr. */
  lemma FooBarPair(fromObj: Value -> Envelope)
    ensures EncodeEntries(DEFAULTS, fromObj, [Entry(FOO, Str(BAR))], 2)
         == Ok([0xa3, 0x66, 0x6f, 0x6f, 0xa3, 0x62, 0x61, 0x72])
  {
    var e := Entry(FOO, Str(BAR));
    var key: seq<byte> := [0xa3, 0x66, 0x6f, 0x6f];
    var value: seq<byte> := [0xa3, 0x62, 0x61, 0x72];
    FooAndBar();
    assert EncodeValue(DEFAULTS, fromObj, Str(BAR), 2) == Ok(value);
    assert EncodeEntry(DEFAULTS, fromObj, e, 2) == Ok(key + value);
    assert [e][..0] == [];
    assert EncodeEntries(DEFAULTS, fromObj, [], 2) == Ok([]);
    assert EncodeEntries(DEFAULTS, fromObj, [e], 2) == Ok([] + (key + value));
    assert [] + (key + value) == [0xa3, 0x66, 0x6f, 0x6f, 0xa3, 0x62, 0x61, 0x72];
  }

  /** A small non-negative integer, when integers are not forced to floats, is its own positive fixint. */
  lemma SmallInteger(o: Options, fromObj: Value -> Envelope, x: JsNumber, depth: int)
    requires !o.forceIntegerToFloat && x.Integral? && 0 <= x.n < 0x80 && depth <= o.maxDepth
    ensures EncodeValue(o, fromObj, Num(x), depth) == Ok([x.n as byte])
  {
    assert IntegerPath(o, x);
    assert NumberBytes(o, x) == [U8(x.n)];
  }

  const ONE := Integral(1, 0x3ff0_0000_0000_0000, 0x3f80_0000)
  const TWO := Integral(2, 0x4000_0000_0000_0000, 0x4000_0000)
  const FORTY_TWO := Integral(42, 0x4045_0000_0000_0000, 0x4228_0000)

  /** [1, 2, 3]: header 0x93, the nil slot, then three positive fixints. */
  lemma OneTwoThree(fromObj: Value -> Envelope)
    ensures Encode(DEFAULTS, fromObj, Arr([Num(ONE), Num(TWO), Num(THREE)])) == Ok([0x93, 0xc0, 0x01, 0x02, 0x03])
  {
    var items := [Num(ONE), Num(TWO), Num(THREE)];
    SmallInteger(DEFAULTS, fromObj, ONE, 2);
    SmallInteger(DEFAULTS, fromObj, TWO, 2);
    SmallInteger(DEFAULTS, fromObj, THREE, 2);
    assert items[..0] == [] && items[..1] == [Num(ONE)] && items[..2] == [Num(ONE), Num(TWO)];
    assert items[..1][..0] == [] && items[..2][..1] == [Num(ONE)];
    assert EncodeItems(DEFAULTS, fromObj, [], 2) == Ok([]);
    assert EncodeItems(DEFAULTS, fromObj, [Num(ONE)], 2) == Ok([] + [0x01]);
    assert EncodeItems(DEFAULTS, fromObj, [Num(ONE), Num(TWO)], 2) == Ok([] + [0x01] + [0x02]);
    assert EncodeItems(DEFAULTS, fromObj, items, 2) == Ok([] + [0x01] + [0x02] + [0x03]);
    assert ArrayHeader(3) == Ok([0x93]);
    assert EncodeValue(DEFAULTS, fromObj, Nil, 2) == Ok([0xc0]);
    assert EncodeArray(DEFAULTS, fromObj, items, Nil, 1) == Ok([0x93] + [0xc0] + ([] + [0x01] + [0x02] + [0x03]));
    assert [0x93] + [0xc0] + ([] + [0x01] + [0x02] + [0x03]) == [0x93, 0xc0, 0x01, 0x02, 0x03];
    assert Encode(DEFAULTS, fromObj, Arr(items)) == EncodeObject(DEFAULTS, fromObj, Arr(items), 1);
  }

  /** { foo: undefined, bar: 42 } */
  const FOO_UNDEFINED_BAR := [Entry(FOO, Undefined), Entry(BAR, Num(FORTY_TWO))]

  /** The pair bar: 42 at depth 2, under options that neither sort nor force floats. */
  lemma BarPair(o: Options, fromObj: Value -> Envelope)
    requires !o.forceIntegerToFloat && 2 <= o.maxDepth
    ensures EncodeEntry(o, fromObj, Entry(BAR, Num(FORTY_TWO)), 2) == Ok([0xa3, 0x62, 0x61, 0x72, 0x2a])
  {
    assert BAR.utf8 == [0x62, 0x61, 0x72];
    ShortString(BAR);
    SmallInteger(o, fromObj, FORTY_TWO, 2);
    assert [0xa3] + BAR.utf8 + [0x2a] == [0xa3, 0x62, 0x61, 0x72, 0x2a];
  }

  /** By default undefined is written, as nil: { foo: undefined, bar: 42 } is a map of two pairs. */
  lemma UndefinedKept(fromObj: Value -> Envelope)
    ensures Encode(DEFAULTS, fromObj, Dict(FOO_UNDEFINED_BAR))
         == Ok([0x82, 0xc0, 0xa3, 0x66, 0x6f, 0x6f, 0xc0, 0xa3, 0x62, 0x61, 0x72, 0x2a])
  {
    var keys := FOO_UNDEFINED_BAR;
    var pairs := [0xa3, 0x66, 0x6f, 0x6f, 0xc0, 0xa3, 0x62, 0x61, 0x72, 0x2a];
    KeptPairs(fromObj);
    assert MapKeys(DEFAULTS, keys) == keys && MapSize(DEFAULTS, keys) == 2;
    assert MapHeader(2) == Ok([0x82]);
    assert EncodeValue(DEFAULTS, fromObj, Nil, 2) == Ok([0xc0]);
    assert EncodeMap(DEFAULTS, fromObj, keys, Nil, 1) == Ok([0x82] + [0xc0] + pairs);
    assert [0x82] + [0xc0] + pairs == [0x82, 0xc0, 0xa3, 0x66, 0x6f, 0x6f, 0xc0, 0xa3, 0x62, 0x61, 0x72, 0x2a];
    PlainObject(DEFAULTS, fromObj, keys);
  }

  /** The two pairs of { foo: undefined, bar: 42 }, both written, undefined as nil. */
  lemma KeptPairs(fromObj: Value -> Envelope)
    ensures EncodeEntries(DEFAULTS, fromObj, FOO_UNDEFINED_BAR, 2)
         == Ok([0xa3, 0x66, 0x6f, 0x6f, 0xc0, 0xa3, 0x62, 0x61, 0x72, 0x2a])
  {
    var keys := FOO_UNDEFINED_BAR;
    var foo := [0xa3, 0x66, 0x6f, 0x6f, 0xc0];
    var bar := [0xa3, 0x62, 0x61, 0x72, 0x2a];
    assert FOO.utf8 == [0x66, 0x6f, 0x6f];
    ShortString(FOO);
    assert EncodeValue(DEFAULTS, fromObj, Undefined, 2) == Ok([0xc0]);
    assert [0xa3] + FOO.utf8 + [0xc0] == foo;
    assert EncodeEntry(DEFAULTS, fromObj, keys[0], 2) == Ok(foo);
    BarPair(DEFAULTS, fromObj);
    assert keys[..1] == [keys[0]] && keys[..1][..0] == [];
    assert EncodeEntries(DEFAULTS, fromObj, [], 2) == Ok([]);
    assert EncodeEntries(DEFAULTS, fromObj, keys[..1], 2) == Ok([] + foo);
    assert EncodeEntries(DEFAULTS, fromObj, keys, 2) == Ok([] + foo + bar);
    assert [] + foo + bar == [0xa3, 0x66, 0x6f, 0x6f, 0xc0, 0xa3, 0x62, 0x61, 0x72, 0x2a];
  }

  /** With ignoreUndefined the pair foo: undefined is left out, header count included. */
  lemma UndefinedDropped(fromObj: Value -> Envelope)
    ensures Encode(Resolve(NO_OPTIONS.(ignoreUndefined := Some(true))), fromObj, Dict(FOO_UNDEFINED_BAR))
         == Ok([0x81, 0xc0, 0xa3, 0x62, 0x61, 0x72, 0x2a])
  {
    var o := Resolve(NO_OPTIONS.(ignoreUndefined := Some(true)));
    var keys := FOO_UNDEFINED_BAR;
    var bar := [0xa3, 0x62, 0x61, 0x72, 0x2a];
    assert o.ignoreUndefined && !o.sortKeys && !o.forceIntegerToFloat && o.maxDepth == 100;
    assert EncodeEntry(o, fromObj, keys[0], 2) == Ok([]);
    BarPair(o, fromObj);
    assert keys[..1] == [keys[0]] && keys[..1][..0] == [];
    assert EncodeEntries(o, fromObj, [], 2) == Ok([]);
    assert EncodeEntries(o, fromObj, keys[..1], 2) == Ok([] + []);
    assert EncodeEntries(o, fromObj, keys, 2) == Ok([] + [] + bar);
    assert CountDefined(keys[..1]) == 0;
    assert MapKeys(o, keys) == keys && MapSize(o, keys) == 1;
    assert MapHeader(1) == Ok([0x81]);
    assert EncodeValue(o, fromObj, Nil, 2) == Ok([0xc0]);
    assert EncodeMap(o, fromObj, keys, Nil, 1) == Ok([0x81] + [0xc0] + ([] + [] + bar));
    assert [0x81] + [0xc0] + ([] + [] + bar) == [0x81, 0xc0, 0xa3, 0x62, 0x61, 0x72, 0x2a];
    assert Encode(o, fromObj, Dict(keys)) == EncodeObject(o, fromObj, Dict(keys), 1);
  }

  const A := Ascii([0x61])
  const B := Ascii([0x62])

  /** With sortKeys, rearranging a plain object's keys does not change what encode returns. */
  lemma SortedObjects(o: Options, fromObj: Value -> Envelope, e1: seq<Entry>, e2: seq<Entry>)
    requires o.sortKeys && DistinctKeys(e1) && multiset(e1) == multiset(e2)
    ensures Encode(o, fromObj, Dict(e1)) == Encode(o, fromObj, Dict(e2))
  {
    if 1 <= o.maxDepth {
      SortKeysCanonical(o, fromObj, e1, e2, Nil, 1);
      PlainObject(o, fromObj, e1);
      PlainObject(o, fromObj, e2);
    }
  }

  /** encode of a plain object is encodeMap with a nil object type, at depth 1. */
  lemma PlainObject(o: Options, fromObj: Value -> Envelope, entries: seq<Entry>)
    requires 1 <= o.maxDepth
    ensures Encode(o, fromObj, Dict(entries)) == EncodeMap(o, fromObj, entries, Nil, 1)
  {
    assert EncodeValue(o, fromObj, Dict(entries), 1) == EncodeObject(o, fromObj, Dict(entries), 1);
  }

  /** With sortKeys, { a: 1, b: 2 } and { b: 2, a: 1 } encode to the same bytes. */
  lemma SortKeysExample(fromObj: Value -> Envelope)
    ensures var o := Resolve(NO_OPTIONS.(sortKeys := Some(true)));
      Encode(o, fromObj, Dict([Entry(A, Num(ONE)), Entry(B, Num(TWO))]))
      == Encode(o, fromObj, Dict([Entry(B, Num(TWO)), Entry(A, Num(ONE))]))
  {
    var ea := Entry(A, Num(ONE));
    var eb := Entry(B, Num(TWO));
    assert A.units != B.units by {
      assert A.units[0] as int == 0x61 && B.units[0] as int == 0x62;
    }
    assert DistinctKeys([ea, eb]);
    assert multiset([ea, eb]) == multiset([eb, ea]);
    SortedObjects(Resolve(NO_OPTIONS.(sortKeys := Some(true))), fromObj, [ea, eb], [eb, ea]);
  }
}
