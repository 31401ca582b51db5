/**
 What maxDepth does. doEncode refuses a value at a depth beyond maxDepth, and the
 depth a value is met at decides nothing else: an encoding that succeeds at some
 depth gives the same bytes at any shallower one. Every array or map also writes its
 object-type slot one level down, so a chain of k nested arrays ending in nil,
 started at depth d, needs d + k <= maxDepth, and a deeper chain fails at the first
 depth past the limit.
 */
module Depth {
  import opened Bytes
  import opened Values
  import opened Format
  import opened MapFacts

  /** The bytes do not depend on the depth, only success does: a shallower start gives the same result. */
  lemma {:induction false} ValueDepth(o: Options, fromObj: Value -> Envelope, v: Value, d: int, shallower: int)
    requires EncodeValue(o, fromObj, v, d).Ok? && shallower <= d
    ensures EncodeValue(o, fromObj, v, shallower) == EncodeValue(o, fromObj, v, d)
    decreases o.maxDepth - d, 0, 0
  {
    assert d <= o.maxDepth;
    match v
    case BigInt(_) =>
      if !o.useBigInt64 {
        ObjectDepth(o, fromObj, v, d, shallower);
      }
    case Bin(_) => ObjectDepth(o, fromObj, v, d, shallower);
    case Arr(_) => ObjectDepth(o, fromObj, v, d, shallower);
    case Dict(_) => ObjectDepth(o, fromObj, v, d, shallower);
    case Other(_) => ObjectDepth(o, fromObj, v, d, shallower);
    case _ =>
  }

  lemma {:induction false} ObjectDepth(o: Options, fromObj: Value -> Envelope, v: Value, d: int, shallower: int)
    requires EncodeObject(o, fromObj, v, d).Ok? && shallower <= d
    ensures EncodeObject(o, fromObj, v, shallower) == EncodeObject(o, fromObj, v, d)
    decreases o.maxDepth - d - 1, 3, 0
  {
    match v
    case Arr(items) => ArrayDepth(o, fromObj, items, Nil, d, shallower);
    case Bin(_) =>
    case Dict(entries) => MapDepth(o, fromObj, entries, Nil, d, shallower);
    case _ =>
      match fromObj(v)
      case AsDict(objectType, data) => MapDepth(o, fromObj, data, objectType, d, shallower);
      case AsList(objectType, items) => ArrayDepth(o, fromObj, items, objectType, d, shallower);
      case Refused(_) => assert false;
  }

  lemma {:induction false} ArrayDepth(o: Options, fromObj: Value -> Envelope, items: seq<Value>, objectType: Value,
                                      d: int, shallower: int)
    requires EncodeArray(o, fromObj, items, objectType, d).Ok? && shallower <= d
    ensures EncodeArray(o, fromObj, items, objectType, shallower) == EncodeArray(o, fromObj, items, objectType, d)
    decreases o.maxDepth - d - 1, 2, 0
  {
    ValueDepth(o, fromObj, objectType, d + 1, shallower + 1);
    ItemsDepth(o, fromObj, items, d + 1, shallower + 1);
  }

  lemma {:induction false} ItemsDepth(o: Options, fromObj: Value -> Envelope, items: seq<Value>, d: int, shallower: int)
    requires EncodeItems(o, fromObj, items, d).Ok? && shallower <= d
    ensures EncodeItems(o, fromObj, items, shallower) == EncodeItems(o, fromObj, items, d)
    decreases o.maxDepth - d, 1, |items|
  {
    if items != [] {
      ItemsDepth(o, fromObj, items[..|items| - 1], d, shallower);
      ValueDepth(o, fromObj, items[|items| - 1], d, shallower);
    }
  }

  lemma {:induction false} MapDepth(o: Options, fromObj: Value -> Envelope, entries: seq<Entry>, objectType: Value,
                                    d: int, shallower: int)
    requires EncodeMap(o, fromObj, entries, objectType, d).Ok? && shallower <= d
    ensures EncodeMap(o, fromObj, entries, objectType, shallower) == EncodeMap(o, fromObj, entries, objectType, d)
    decreases o.maxDepth - d - 1, 2, 0
  {
    ValueDepth(o, fromObj, objectType, d + 1, shallower + 1);
    EntriesDepth(o, fromObj, MapKeys(o, entries), d + 1, shallower + 1);
  }

  lemma {:induction false} EntriesDepth(o: Options, fromObj: Value -> Envelope, keys: seq<Entry>, d: int, shallower: int)
    requires EncodeEntries(o, fromObj, keys, d).Ok? && shallower <= d
    ensures EncodeEntries(o, fromObj, keys, shallower) == EncodeEntries(o, fromObj, keys, d)
    decreases o.maxDepth - d, 1, |keys|
  {
    if keys != [] {
      EntriesDepth(o, fromObj, keys[..|keys| - 1], d, shallower);
      EntryDepth(o, fromObj, keys[|keys| - 1], d, shallower);
    }
  }

  lemma {:induction false} EntryDepth(o: Options, fromObj: Value -> Envelope, e: Entry, d: int, shallower: int)
    requires EncodeEntry(o, fromObj, e, d).Ok? && shallower <= d
    ensures EncodeEntry(o, fromObj, e, shallower) == EncodeEntry(o, fromObj, e, d)
    decreases o.maxDepth - d, 0, 1
  {
    if Emitted(o, e) {
      ValueDepth(o, fromObj, e.value, d, shallower);
    }
  }

  /** k arrays, each holding the next, the innermost holding nil. */
  function Nest(k: nat): Value {
    if k == 0 then Nil else Arr([Nest(k - 1)])
  }

  /** The bytes of Nest(k): k times a one-item array header and its nil slot, then nil. */
  function NestBytes(k: nat): seq<byte> {
    if k == 0 then [0xc0] else [0x91, 0xc0] + NestBytes(k - 1)
  }

  /**
   Nest(k) at depth d encodes exactly when d + k <= maxDepth; otherwise doEncode
   throws at the first depth past the limit (d itself when d is already past it).
   */
  lemma {:induction false} NestingLimit(o: Options, fromObj: Value -> Envelope, k: nat, d: int)
    ensures EncodeValue(o, fromObj, Nest(k), d).Ok? <==> d + k <= o.maxDepth
    ensures EncodeValue(o, fromObj, Nest(k), d).Ok? ==> EncodeValue(o, fromObj, Nest(k), d).value == NestBytes(k)
    ensures EncodeValue(o, fromObj, Nest(k), d).Err? ==>
      EncodeValue(o, fromObj, Nest(k), d).error == TooDeep(if d > o.maxDepth then d else o.maxDepth + 1)
    decreases k
  {
    if k > 0 && d <= o.maxDepth {
      NestStep(o, fromObj, k, d);
      if d + 1 <= o.maxDepth {
        NestingLimit(o, fromObj, k - 1, d + 1);
      }
    }
  }

  /** One level of Nest: a one-item array header, the nil slot, then the level below, if that level is not too deep. */
  lemma NestStep(o: Options, fromObj: Value -> Envelope, k: nat, d: int)
    requires k > 0 && d <= o.maxDepth
    ensures var below := EncodeValue(o, fromObj, Nest(k - 1), d + 1);
      EncodeValue(o, fromObj, Nest(k), d)
      == if d + 1 > o.maxDepth then Err(TooDeep(d + 1))
         else if below.Ok? then Ok([0x91, 0xc0] + below.value)
         else below
  {
    var inner := Nest(k - 1);
    assert Nest(k) == Arr([inner]);
    assert ArrayHeader(1) == Ok([0x91]);
    assert EncodeValue(o, fromObj, Nest(k), d) == EncodeArray(o, fromObj, [inner], Nil, d);
    if d + 1 <= o.maxDepth {
      assert EncodeValue(o, fromObj, Nil, d + 1) == Ok([0xc0]);
      var rest := EncodeValue(o, fromObj, inner, d + 1);
      assert [inner][..0] == [];
      assert EncodeItems(o, fromObj, [inner][..0], d + 1) == Ok([]);
      assert EncodeItems(o, fromObj, [inner], d + 1) == (if rest.Ok? then Ok([] + rest.value) else Err(rest.error));
      if rest.Ok? {
        assert [] + rest.value == rest.value;
        assert EncodeArray(o, fromObj, [inner], Nil, d) == Ok([0x91] + [0xc0] + rest.value);
        assert [0x91] + [0xc0] + rest.value == [0x91, 0xc0] + rest.value;
      } else {
        assert EncodeArray(o, fromObj, [inner], Nil, d) == Err(rest.error);
      }
    } else {
      assert EncodeValue(o, fromObj, Nil, d + 1) == Err(TooDeep(d + 1));
      assert EncodeArray(o, fromObj, [inner], Nil, d) == Err(TooDeep(d + 1));
    }
  }

  /**
   v fits in a budget of b levels: b >= 0, and every array or map in v leaves one more
   level for its object-type slot and its elements.
   */
  ghost predicate Fits(v: Value, b: int)
    decreases v
  {
    b >= 0 &&
    match v
    case Arr(items) => b >= 1 && forall x :: x in items ==> Fits(x, b - 1)
    case Dict(entries) => b >= 1 && forall e :: e in entries ==> Fits(e.value, b - 1)
    case _ => true
  }

  /**
   v needs neither the hook nor a length of 2^32 or more, so that depth is the only
   thing that can make its encoding fail.
   */
  ghost predicate Plain(o: Options, v: Value)
    decreases v
  {
    match v
    case Other(_) => false
    case BigInt(_) => o.useBigInt64
    case Str(s) => |s.utf8| < UINT32_LIMIT
    case Bin(data) => |data| < UINT32_LIMIT
    case Arr(items) => |items| < UINT32_LIMIT && forall x :: x in items ==> Plain(o, x)
    case Dict(entries) =>
      |entries| < UINT32_LIMIT && forall e :: e in entries ==> PlainEntry(o, e)
    case _ => true
  }

  /** A pair of a plain map: its key is a string shorter than 2^32 bytes and its value is plain. */
  ghost predicate PlainEntry(o: Options, e: Entry)
    decreases e, 0
  {
    |e.key.utf8| < UINT32_LIMIT && Plain(o, e.value)
  }

  /**
   What the depth bound says about one value encoded at depth d: success means it fits
   in the levels left, and a plain value succeeds exactly when it fits and otherwise
   fails only for being too deep.
   */
  ghost predicate Bounded(o: Options, fromObj: Value -> Envelope, v: Value, d: int) {
    var r := EncodeValue(o, fromObj, v, d);
    (r.Ok? ==> Fits(v, o.maxDepth - d))
    && (Plain(o, v) ==> (r.Ok? <==> Fits(v, o.maxDepth - d)) && (r.Err? ==> r.error.TooDeep?))
  }

  /**
   The depth bound, for any value at any depth: a value that encodes at depth d fits in
   maxDepth - d levels; a plain value encodes exactly when it fits, and when it does not
   the error is TooDeep.
   */
  lemma {:induction false} DepthBound(o: Options, fromObj: Value -> Envelope, v: Value, d: int)
    ensures EncodeValue(o, fromObj, v, d).Ok? ==> Fits(v, o.maxDepth - d)
    ensures Plain(o, v) ==> (EncodeValue(o, fromObj, v, d).Ok? <==> Fits(v, o.maxDepth - d))
    ensures Plain(o, v) && EncodeValue(o, fromObj, v, d).Err? ==> EncodeValue(o, fromObj, v, d).error.TooDeep?
    decreases v, 2
  {
    if d <= o.maxDepth {
      match v
      case Arr(items) => ArrayBound(o, fromObj, items, d);
      case Dict(entries) => MapBound(o, fromObj, entries, d);
      case _ =>
    }
  }

  /** The depth bound for a built-in array, from the bound for each of its items. */
  lemma {:induction false} ArrayBound(o: Options, fromObj: Value -> Envelope, items: seq<Value>, d: int)
    requires d <= o.maxDepth
    ensures Bounded(o, fromObj, Arr(items), d)
    decreases Arr(items), 1
  {
    if d + 1 <= o.maxDepth {
      EachItemBound(o, fromObj, items, d + 1);
      ElementsBound(o, fromObj, items, d + 1);
    }
    ArrayLevels(o, fromObj, items, d);
  }

  /** The depth bound for each item of an array. */
  lemma {:induction false} EachItemBound(o: Options, fromObj: Value -> Envelope, items: seq<Value>, d: int)
    ensures forall x :: x in items ==> Bounded(o, fromObj, x, d)
    decreases Arr(items), 0
  {
    forall x | x in items
      ensures Bounded(o, fromObj, x, d)
    {
      DepthBound(o, fromObj, x, d);
    }
  }

  /**
   The bound for an array's items at depth d: when they encode each fits, and plain
   items encode exactly when each fits and otherwise fail only for being too deep.
   */
  ghost predicate ItemsFacts(o: Options, fromObj: Value -> Envelope, items: seq<Value>, d: int) {
    var body := EncodeItems(o, fromObj, items, d);
    (body.Ok? ==> forall x :: x in items ==> Fits(x, o.maxDepth - d))
    && (Plain(o, Arr(items)) ==>
          (body.Ok? <==> forall x :: x in items ==> Fits(x, o.maxDepth - d)) && (body.Err? ==> body.error.TooDeep?))
  }

  /** The bound for an array's items, from the bound for each item. */
  lemma ElementsBound(o: Options, fromObj: Value -> Envelope, items: seq<Value>, d: int)
    requires forall x :: x in items ==> Bounded(o, fromObj, x, d)
    ensures ItemsFacts(o, fromObj, items, d)
  {
    ItemsOutcome(o, fromObj, items, d);
    var body := EncodeItems(o, fromObj, items, d);
    if Plain(o, Arr(items)) && body.Err? {
      var x :| x in items && EncodeValue(o, fromObj, x, d) == Err(body.error);
      assert Bounded(o, fromObj, x, d) && Plain(o, x);
    }
  }

  /**
   One level of a built-in array: with the bound known for its items, encodeArray's
   header, nil slot and items give the bound for the array.
   */
  lemma ArrayLevels(o: Options, fromObj: Value -> Envelope, items: seq<Value>, d: int)
    requires d <= o.maxDepth
    requires d + 1 <= o.maxDepth ==> ItemsFacts(o, fromObj, items, d + 1)
    ensures Bounded(o, fromObj, Arr(items), d)
  {
    var r := EncodeValue(o, fromObj, Arr(items), d);
    var header := ArrayHeader(|items|);
    assert r == EncodeObject(o, fromObj, Arr(items), d) == EncodeArray(o, fromObj, items, Nil, d);
    if d + 1 > o.maxDepth {
      assert EncodeValue(o, fromObj, Nil, d + 1) == Err(TooDeep(d + 1));
      assert !Fits(Arr(items), o.maxDepth - d);
    } else {
      var body := EncodeItems(o, fromObj, items, d + 1);
      var b := o.maxDepth - d;
      assert b - 1 == o.maxDepth - (d + 1);
      assert EncodeValue(o, fromObj, Nil, d + 1) == Ok(NilBytes());
      assert Fits(Arr(items), b) <==> forall x :: x in items ==> Fits(x, o.maxDepth - (d + 1));
      if header.Ok? {
        assert r.Ok? <==> body.Ok?;
        assert r.Err? ==> r.error == body.error;
      }
    }
  }

  /**
   encodeArray's loop succeeds exactly when every item does, and when it fails the error
   is the error of one of the items.
   */
  lemma {:induction false} ItemsOutcome(o: Options, fromObj: Value -> Envelope, items: seq<Value>, d: int)
    ensures var r := EncodeItems(o, fromObj, items, d);
      (r.Ok? <==> forall x :: x in items ==> EncodeValue(o, fromObj, x, d).Ok?)
      && (r.Err? ==> exists x :: x in items && EncodeValue(o, fromObj, x, d) == Err(r.error))
    decreases |items|
  {
    if items != [] {
      var init, last := items[..|items| - 1], items[|items| - 1];
      assert items == init + [last];
      assert forall x :: x in items <==> x in init || x == last;
      ItemsOutcome(o, fromObj, init, d);
      var r, ri, rl := EncodeItems(o, fromObj, items, d), EncodeItems(o, fromObj, init, d), EncodeValue(o, fromObj, last, d);
      assert r.Ok? <==> ri.Ok? && rl.Ok?;
      assert (forall x :: x in items ==> EncodeValue(o, fromObj, x, d).Ok?)
        <==> (forall x :: x in init ==> EncodeValue(o, fromObj, x, d).Ok?) && rl.Ok?;
    }
  }

  /** The depth bound for a built-in map, from the bound for each of its values. */
  lemma {:induction false} MapBound(o: Options, fromObj: Value -> Envelope, entries: seq<Entry>, d: int)
    requires d <= o.maxDepth
    ensures Bounded(o, fromObj, Dict(entries), d)
    decreases Dict(entries), 1
  {
    var keys := MapKeys(o, entries);
    MapKeysPermute(o, entries);
    SameMembers(keys, entries);
    if d + 1 <= o.maxDepth {
      EachValueBound(o, fromObj, entries, d + 1);
      PairsBound(o, fromObj, entries, keys, d + 1);
    }
    MapLevels(o, fromObj, entries, keys, d);
  }

  /** The depth bound for each value of a map. */
  lemma {:induction false} EachValueBound(o: Options, fromObj: Value -> Envelope, entries: seq<Entry>, d: int)
    ensures forall e :: e in entries ==> Bounded(o, fromObj, e.value, d)
    decreases Dict(entries), 0
  {
    forall e | e in entries
      ensures Bounded(o, fromObj, e.value, d)
    {
      DepthBound(o, fromObj, e.value, d);
    }
  }

  /**
   The bound for the pairs encodeMap visits at depth d: when they encode every value fits,
   and for a plain map they encode exactly when every value fits and otherwise fail
   only for being too deep.
   */
  ghost predicate PairsFacts(o: Options, fromObj: Value -> Envelope, entries: seq<Entry>, keys: seq<Entry>, d: int) {
    var body := EncodeEntries(o, fromObj, keys, d);
    (body.Ok? ==> forall e :: e in keys ==> Fits(e.value, o.maxDepth - d))
    && (Plain(o, Dict(entries)) ==>
          (body.Ok? <==> forall e :: e in keys ==> Fits(e.value, o.maxDepth - d)) && (body.Err? ==> body.error.TooDeep?))
  }

  /** The bound for the pairs encodeMap visits, from the bound for the map's own values. */
  lemma PairsBound(o: Options, fromObj: Value -> Envelope, entries: seq<Entry>, keys: seq<Entry>, d: int)
    requires d <= o.maxDepth && forall e :: e in keys <==> e in entries
    requires forall e :: e in entries ==> Bounded(o, fromObj, e.value, d)
    ensures PairsFacts(o, fromObj, entries, keys, d)
  {
    EntriesOutcome(o, fromObj, keys, d);
    forall e | e in keys
      ensures EncodeEntry(o, fromObj, e, d).Ok? ==> Fits(e.value, o.maxDepth - d)
    {
      PairFits(o, fromObj, e, d);
    }
    if Plain(o, Dict(entries)) {
      forall e | e in keys
        ensures var r := EncodeEntry(o, fromObj, e, d);
          (r.Ok? <==> Fits(e.value, o.maxDepth - d)) && (r.Err? ==> r.error.TooDeep?)
      {
        PlainPair(o, fromObj, e, d);
      }
      var body := EncodeEntries(o, fromObj, keys, d);
      if body.Err? {
        var e :| e in keys && EncodeEntry(o, fromObj, e, d) == Err(body.error);
      }
    }
  }

  /**
   One level of a built-in map: with the bound known for its visited pairs, encodeMap's
   header, nil slot and pairs give the bound for the map.
   */
  lemma MapLevels(o: Options, fromObj: Value -> Envelope, entries: seq<Entry>, keys: seq<Entry>, d: int)
    requires d <= o.maxDepth && keys == MapKeys(o, entries) && |keys| == |entries|
    requires forall e :: e in keys <==> e in entries
    requires d + 1 <= o.maxDepth ==> PairsFacts(o, fromObj, entries, keys, d + 1)
    ensures Bounded(o, fromObj, Dict(entries), d)
  {
    var r := EncodeValue(o, fromObj, Dict(entries), d);
    var header := MapHeader(MapSize(o, keys));
    assert r == EncodeObject(o, fromObj, Dict(entries), d) == EncodeMap(o, fromObj, entries, Nil, d);
    if Plain(o, Dict(entries)) {
      assert MapSize(o, keys) <= |keys|;
      assert header.Ok?;
    }
    if d + 1 > o.maxDepth {
      assert EncodeValue(o, fromObj, Nil, d + 1) == Err(TooDeep(d + 1));
      assert !Fits(Dict(entries), o.maxDepth - d);
    } else {
      var body := EncodeEntries(o, fromObj, keys, d + 1);
      var b := o.maxDepth - d;
      assert b - 1 == o.maxDepth - (d + 1);
      assert EncodeValue(o, fromObj, Nil, d + 1) == Ok(NilBytes());
      assert Fits(Dict(entries), b) <==> forall e :: e in keys ==> Fits(e.value, o.maxDepth - (d + 1));
      if header.Ok? {
        assert r.Ok? <==> body.Ok?;
        assert r.Err? ==> r.error == body.error;
      }
    }
  }

  /** Two sequences holding the same multiset have the same members. */
  lemma SameMembers<T>(s: seq<T>, t: seq<T>)
    requires multiset(s) == multiset(t)
    ensures forall x :: x in s <==> x in t
  {
    forall x
      ensures x in s <==> x in t
    {
      assert x in s <==> x in multiset(s);
      assert x in t <==> x in multiset(t);
    }
  }

  /**
   encodeMap's loop succeeds exactly when every pair does, and when it fails the error
   is the error of one of the pairs.
   */
  lemma {:induction false} EntriesOutcome(o: Options, fromObj: Value -> Envelope, keys: seq<Entry>, d: int)
    ensures var r := EncodeEntries(o, fromObj, keys, d);
      (r.Ok? <==> forall e :: e in keys ==> EncodeEntry(o, fromObj, e, d).Ok?)
      && (r.Err? ==> exists e :: e in keys && EncodeEntry(o, fromObj, e, d) == Err(r.error))
    decreases |keys|
  {
    if keys != [] {
      var init, last := keys[..|keys| - 1], keys[|keys| - 1];
      assert keys == init + [last];
      assert forall e :: e in keys <==> e in init || e == last;
      EntriesOutcome(o, fromObj, init, d);
      var r, ri, rl := EncodeEntries(o, fromObj, keys, d), EncodeEntries(o, fromObj, init, d), EncodeEntry(o, fromObj, last, d);
      assert r.Ok? <==> ri.Ok? && rl.Ok?;
      assert (forall e :: e in keys ==> EncodeEntry(o, fromObj, e, d).Ok?)
        <==> (forall e :: e in init ==> EncodeEntry(o, fromObj, e, d).Ok?) && rl.Ok?;
    }
  }

  /** When one pair encodes, its value fits: a pair ignoreUndefined skips holds undefined, which always fits. */
  lemma PairFits(o: Options, fromObj: Value -> Envelope, e: Entry, d: int)
    requires d <= o.maxDepth && Bounded(o, fromObj, e.value, d)
    ensures EncodeEntry(o, fromObj, e, d).Ok? ==> Fits(e.value, o.maxDepth - d)
  {
    if !Emitted(o, e) {
      assert e.value == Undefined;
    }
  }

  /** One pair of a plain map encodes exactly when its value fits, and fails only for being too deep. */
  lemma PlainPair(o: Options, fromObj: Value -> Envelope, e: Entry, d: int)
    requires d <= o.maxDepth && Bounded(o, fromObj, e.value, d) && PlainEntry(o, e)
    ensures var r := EncodeEntry(o, fromObj, e, d);
      (r.Ok? <==> Fits(e.value, o.maxDepth - d)) && (r.Err? ==> r.error.TooDeep?)
  {
    if !Emitted(o, e) {
      assert e.value == Undefined;
    }
  }
}
