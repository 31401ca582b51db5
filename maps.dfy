/**
 What encodeMap promises about pairs: the header counts exactly the pairs written,
 ignoreUndefined drops exactly the pairs whose value is undefined and nothing else,
 and with sortKeys the bytes do not depend on the order the keys came in.
 */
module MapFacts {
  import opened Values
  import opened KeyOrder
  import opened Format

  /** The keys encodeMap visits are the entries it was given, rearranged when sortKeys is set and as given otherwise. */
  lemma MapKeysPermute(o: Options, entries: seq<Entry>)
    ensures multiset(MapKeys(o, entries)) == multiset(entries)
    ensures |MapKeys(o, entries)| == |entries|
    ensures !o.sortKeys ==> MapKeys(o, entries) == entries
    ensures o.sortKeys ==> Sorted(MapKeys(o, entries))
  {
    if o.sortKeys {
      SortEntriesSorts(entries);
      assert |multiset(SortEntries(entries))| == |multiset(entries)|;
    }
  }

  /** The pairs encodeMap writes, in the order it writes them. */
  function EmittedEntries(o: Options, keys: seq<Entry>): seq<Entry> {
    if keys == [] then []
    else EmittedEntries(o, keys[..|keys| - 1]) + (if Emitted(o, keys[|keys| - 1]) then [keys[|keys| - 1]] else [])
  }

  /**
   The pairs written are exactly the pairs ignoreUndefined does not drop, in their
   order: all of them when it is off, never more than there are.
   */
  lemma {:induction false} EmittedEntriesFilter(o: Options, keys: seq<Entry>)
    ensures !o.ignoreUndefined ==> EmittedEntries(o, keys) == keys
    ensures forall e :: e in EmittedEntries(o, keys) <==> e in keys && Emitted(o, e)
    ensures |EmittedEntries(o, keys)| <= |keys|
  {
    if keys != [] {
      var init := keys[..|keys| - 1];
      var last := keys[|keys| - 1];
      assert keys == init + [last];
      EmittedEntriesFilter(o, init);
    }
  }

  /** The count in the map header is the number of pairs written. */
  lemma {:induction false} MapSizeCountsEmitted(o: Options, keys: seq<Entry>)
    ensures MapSize(o, keys) == |EmittedEntries(o, keys)|
  {
    if !o.ignoreUndefined {
      EmittedEntriesFilter(o, keys);
    } else if keys != [] {
      MapSizeCountsEmitted(o, keys[..|keys| - 1]);
    }
  }

  /** The pairs ignoreUndefined skips write nothing: the body is that of the emitted pairs alone. */
  lemma {:induction false} SkippedPairsWriteNothing(o: Options, fromObj: Value -> Envelope, keys: seq<Entry>, depth: int)
    ensures EncodeEntries(o, fromObj, keys, depth) == EncodeEntries(o, fromObj, EmittedEntries(o, keys), depth)
    decreases |keys|
  {
    if keys != [] {
      var init := keys[..|keys| - 1];
      var last := keys[|keys| - 1];
      var kept := EmittedEntries(o, init);
      SkippedPairsWriteNothing(o, fromObj, init, depth);
      if Emitted(o, last) {
        assert (kept + [last])[..|kept|] == kept;
      } else {
        assert EmittedEntries(o, keys) == kept + [] == kept;
        assert EncodeEntry(o, fromObj, last, depth) == Ok([]);
        var whole := EncodeEntries(o, fromObj, init, depth);
        if whole.Ok? {
          assert whole.value + [] == whole.value;
        }
      }
    }
  }

  /**
   With sortKeys, two maps holding the same pairs (distinct keys, as an object's own
   keys are) encode to the same bytes whatever order their keys were given in.
   */
  lemma SortKeysCanonical(o: Options, fromObj: Value -> Envelope, e1: seq<Entry>, e2: seq<Entry>,
                          objectType: Value, depth: int)
    requires o.sortKeys && DistinctKeys(e1) && multiset(e1) == multiset(e2)
    ensures EncodeMap(o, fromObj, e1, objectType, depth) == EncodeMap(o, fromObj, e2, objectType, depth)
  {
    SortForgetsOrder(e1, e2);
  }
}
