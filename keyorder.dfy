/**
 The order `keys.sort()` puts object keys in when `sortKeys` is set: JavaScript's
 default sort compares strings code unit by code unit, a proper prefix first, and
 is stable. `SortEntries` sorts a map's entries by key in that order.
 */
module KeyOrder {
  import opened Values

  /** Strict lexicographic order on UTF-16 code-unit sequences. */
  predicate Less(a: seq<CodeUnit>, b: seq<CodeUnit>)
    decreases |a|
  {
    if a == [] then b != []
    else if b == [] then false
    else a[0] < b[0] || (a[0] == b[0] && Less(a[1..], b[1..]))
  }

  lemma {:induction false} LessIrreflexive(a: seq<CodeUnit>)
    ensures !Less(a, a)
    decreases |a|
  {
    if a != [] {
      LessIrreflexive(a[1..]);
    }
  }

  lemma {:induction false} LessTransitive(a: seq<CodeUnit>, b: seq<CodeUnit>, c: seq<CodeUnit>)
    requires Less(a, b) && Less(b, c)
    ensures Less(a, c)
    decreases |a|
  {
    if a != [] && a[0] == b[0] && b[0] == c[0] {
      LessTransitive(a[1..], b[1..], c[1..]);
    }
  }

  /** Any two different code-unit sequences are ordered one way or the other. */
  lemma {:induction false} LessTotal(a: seq<CodeUnit>, b: seq<CodeUnit>)
    ensures a == b || Less(a, b) || Less(b, a)
    decreases |a|
  {
    if a != [] && b != [] && a[0] == b[0] {
      LessTotal(a[1..], b[1..]);
      if a[1..] == b[1..] {
        assert a == [a[0]] + a[1..] && b == [b[0]] + b[1..];
      }
    }
  }

  predicate KeyLess(x: Entry, y: Entry) {
    Less(x.key.units, y.key.units)
  }

  /** Entries in non-decreasing key order. */
  predicate Sorted(s: seq<Entry>) {
    forall i, j :: 0 <= i < j < |s| ==> !KeyLess(s[j], s[i])
  }

  /** No two entries share a key, as for the own keys of a JavaScript object. */
  predicate DistinctKeys(s: seq<Entry>) {
    forall i, j :: 0 <= i < j < |s| ==> s[i].key.units != s[j].key.units
  }

  /** The keys of the entries. */
  function KeySet(s: seq<Entry>): set<seq<CodeUnit>> {
    set i | 0 <= i < |s| :: s[i].key.units
  }

  /** Prepending adds exactly one key. */
  lemma ConsKeySet(x: Entry, t: seq<Entry>)
    ensures KeySet([x] + t) == KeySet(t) + {x.key.units}
  {
    var c := [x] + t;
    forall u | u in KeySet(c) ensures u in KeySet(t) + {x.key.units} {
      var i :| 0 <= i < |c| && c[i].key.units == u;
      if i > 0 {
        assert c[i] == t[i - 1];
      }
    }
    forall u | u in KeySet(t) ensures u in KeySet(c) {
      var i :| 0 <= i < |t| && t[i].key.units == u;
      assert c[i + 1] == t[i];
    }
    assert c[0] == x;
  }

  /** A prepended entry keeps the sequence sorted exactly when nothing after it is below it. */
  lemma ConsSorted(x: Entry, t: seq<Entry>)
    ensures Sorted([x] + t) <==> Sorted(t) && forall k :: 0 <= k < |t| ==> !KeyLess(t[k], x)
  {
    var c := [x] + t;
    if Sorted(t) && forall k :: 0 <= k < |t| ==> !KeyLess(t[k], x) {
      forall i, j | 0 <= i < j < |c| ensures !KeyLess(c[j], c[i]) {
        assert c[j] == t[j - 1];
        if i > 0 {
          assert c[i] == t[i - 1];
        }
      }
    }
    if Sorted(c) {
      forall i, j | 0 <= i < j < |t| ensures !KeyLess(t[j], t[i]) {
        assert c[j + 1] == t[j] && c[i + 1] == t[i];
      }
      forall k | 0 <= k < |t| ensures !KeyLess(t[k], x) {
        assert c[k + 1] == t[k] && c[0] == x;
      }
    }
  }

  /** A prepended entry keeps keys distinct exactly when its key is new. */
  lemma ConsDistinct(x: Entry, t: seq<Entry>)
    ensures DistinctKeys([x] + t) <==> DistinctKeys(t) && x.key.units !in KeySet(t)
  {
    var c := [x] + t;
    if DistinctKeys(t) && x.key.units !in KeySet(t) {
      forall i, j | 0 <= i < j < |c| ensures c[i].key.units != c[j].key.units {
        assert c[j] == t[j - 1];
        if i > 0 {
          assert c[i] == t[i - 1];
        }
      }
    }
    if DistinctKeys(c) {
      forall i, j | 0 <= i < j < |t| ensures t[i].key.units != t[j].key.units {
        assert c[j + 1] == t[j] && c[i + 1] == t[i];
      }
      forall i | 0 <= i < |t| ensures t[i].key.units != x.key.units {
        assert c[i + 1] == t[i] && c[0] == x;
      }
    }
  }

  lemma ConsFacts(x: Entry, t: seq<Entry>)
    ensures KeySet([x] + t) == KeySet(t) + {x.key.units}
    ensures Sorted([x] + t) <==> Sorted(t) && forall k :: 0 <= k < |t| ==> !KeyLess(t[k], x)
    ensures DistinctKeys([x] + t) <==> DistinctKeys(t) && x.key.units !in KeySet(t)
  {
    ConsKeySet(x, t);
    ConsSorted(x, t);
    ConsDistinct(x, t);
  }

  /** If x's key is not below e's, nothing sorted after x lies below e. */
  lemma NotBelowChain(e: Entry, x: Entry, t: seq<Entry>)
    requires !KeyLess(x, e)
    requires forall k :: 0 <= k < |t| ==> !KeyLess(t[k], x)
    ensures forall k :: 0 <= k < |t| ==> !KeyLess(t[k], e)
  {
    forall k | 0 <= k < |t| ensures !KeyLess(t[k], e) {
      if KeyLess(t[k], e) {
        LessTotal(x.key.units, t[k].key.units);
        if x.key.units != t[k].key.units {
          LessTransitive(x.key.units, t[k].key.units, e.key.units);
        }
      }
    }
  }

  /** After inserting e into the tail of s, nothing in the result lies below s[0] when s[0] is below e. */
  lemma InsertedTailNotBelow(e: Entry, s: seq<Entry>, rest: seq<Entry>)
    requires s != [] && Sorted(s) && KeyLess(s[0], e)
    requires multiset(rest) == multiset(s[1..]) + multiset{e}
    ensures forall k :: 0 <= k < |rest| ==> !KeyLess(rest[k], s[0])
  {
    forall k | 0 <= k < |rest| ensures !KeyLess(rest[k], s[0]) {
      assert rest[k] in multiset(rest);
      if rest[k] == e {
        if KeyLess(e, s[0]) {
          LessTransitive(e.key.units, s[0].key.units, e.key.units);
          LessIrreflexive(e.key.units);
        }
      } else {
        assert rest[k] in multiset(s[1..]);
        var m :| 0 <= m < |s[1..]| && s[1..][m] == rest[k];
        assert s[m + 1] == rest[k];
      }
    }
  }

  /** Puts e in front of the first entry whose key is not below e's, so equal keys keep their order. */
  function Insert(e: Entry, s: seq<Entry>): seq<Entry> {
    if s == [] then [e]
    else if !KeyLess(s[0], e) then [e] + s
    else [s[0]] + Insert(e, s[1..])
  }

  /** Insert adds e and nothing else. */
  lemma InsertContents(e: Entry, s: seq<Entry>)
    ensures multiset(Insert(e, s)) == multiset(s) + multiset{e}
    ensures KeySet(Insert(e, s)) == KeySet(s) + {e.key.units}
  {
    InsertMultiset(e, s);
    InsertKeySet(e, s);
  }

  lemma {:induction false} InsertMultiset(e: Entry, s: seq<Entry>)
    ensures multiset(Insert(e, s)) == multiset(s) + multiset{e}
  {
    if s != [] {
      assert s == [s[0]] + s[1..];
      if KeyLess(s[0], e) {
        InsertMultiset(e, s[1..]);
      }
    }
  }

  lemma {:induction false} InsertKeySet(e: Entry, s: seq<Entry>)
    ensures KeySet(Insert(e, s)) == KeySet(s) + {e.key.units}
  {
    if s == [] {
      ConsKeySet(e, []);
    } else {
      assert s == [s[0]] + s[1..];
      ConsKeySet(s[0], s[1..]);
      if !KeyLess(s[0], e) {
        ConsKeySet(e, s);
      } else {
        InsertKeySet(e, s[1..]);
        ConsKeySet(s[0], Insert(e, s[1..]));
      }
    }
  }

  /** Insert keeps a sorted sequence sorted. */
  lemma {:induction false} InsertSorted(e: Entry, s: seq<Entry>)
    requires Sorted(s)
    ensures Sorted(Insert(e, s))
  {
    if s == [] {
      ConsSorted(e, []);
    } else {
      assert s == [s[0]] + s[1..];
      ConsSorted(s[0], s[1..]);
      if !KeyLess(s[0], e) {
        NotBelowChain(e, s[0], s[1..]);
        ConsSorted(e, s);
      } else {
        var rest := Insert(e, s[1..]);
        InsertSorted(e, s[1..]);
        InsertContents(e, s[1..]);
        InsertedTailNotBelow(e, s, rest);
        ConsSorted(s[0], rest);
      }
    }
  }

  /** Insert of a new key keeps keys distinct. */
  lemma {:induction false} InsertDistinct(e: Entry, s: seq<Entry>)
    ensures DistinctKeys(s) && e.key.units !in KeySet(s) ==> DistinctKeys(Insert(e, s))
  {
    if !(DistinctKeys(s) && e.key.units !in KeySet(s)) {
    } else if s == [] {
      ConsDistinct(e, []);
    } else {
      assert s == [s[0]] + s[1..];
      ConsDistinct(s[0], s[1..]);
      ConsKeySet(s[0], s[1..]);
      if !KeyLess(s[0], e) {
        ConsDistinct(e, s);
      } else {
        InsertDistinct(e, s[1..]);
        InsertContents(e, s[1..]);
        ConsDistinct(s[0], Insert(e, s[1..]));
      }
    }
  }

  /** A stable insertion sort of the entries by key. */
  function SortEntries(s: seq<Entry>): seq<Entry> {
    if s == [] then [] else Insert(s[0], SortEntries(s[1..]))
  }

  /** SortEntries sorts: the result is ordered by key and holds exactly the input entries. */
  lemma {:induction false} SortEntriesSorts(s: seq<Entry>)
    ensures Sorted(SortEntries(s))
    ensures multiset(SortEntries(s)) == multiset(s)
    ensures KeySet(SortEntries(s)) == KeySet(s)
    ensures DistinctKeys(s) ==> DistinctKeys(SortEntries(s))
  {
    if s != [] {
      assert s == [s[0]] + s[1..];
      ConsFacts(s[0], s[1..]);
      SortEntriesSorts(s[1..]);
      var t := SortEntries(s[1..]);
      InsertContents(s[0], t);
      InsertSorted(s[0], t);
      InsertDistinct(s[0], t);
    }
  }

  /**
   Two sorted arrangements of the same entries are identical when keys are distinct:
   sorting forgets the order the entries came in.
   */
  lemma {:induction false} SortedUnique(a: seq<Entry>, b: seq<Entry>)
    requires Sorted(a) && Sorted(b) && DistinctKeys(a)
    requires multiset(a) == multiset(b)
    ensures a == b
    decreases |a|
  {
    if a == [] {
      assert |multiset(b)| == 0;
    } else {
      SortedHeadsAgree(a, b);
      assert a == [a[0]] + a[1..] && b == [b[0]] + b[1..];
      MultisetTail(a, b);
      ConsFacts(a[0], a[1..]);
      ConsFacts(b[0], b[1..]);
      SortedUnique(a[1..], b[1..]);
    }
  }

  /** Two sorted arrangements of the same distinctly keyed entries start with the same entry. */
  lemma SortedHeadsAgree(a: seq<Entry>, b: seq<Entry>)
    requires Sorted(a) && Sorted(b) && DistinctKeys(a)
    requires multiset(a) == multiset(b) && a != []
    ensures b != [] && a[0] == b[0]
  {
    assert |b| == |multiset(b)| == |multiset(a)| == |a|;
    assert a[0] in multiset(b);
    var m :| 0 <= m < |b| && b[m] == a[0];
    assert b[0] in multiset(a);
    var k :| 0 <= k < |a| && a[k] == b[0];
    if k > 0 {
      assert !KeyLess(a[k], a[0]);
    }
    if m > 0 {
      assert !KeyLess(b[m], b[0]);
    }
    LessTotal(a[0].key.units, b[0].key.units);
    assert k == 0;
  }

  /** Removing a common first entry keeps two multisets equal. */
  lemma MultisetTail(a: seq<Entry>, b: seq<Entry>)
    requires a != [] && b != [] && a[0] == b[0] && multiset(a) == multiset(b)
    ensures multiset(a[1..]) == multiset(b[1..])
  {
    assert a == [a[0]] + a[1..] && b == [b[0]] + b[1..];
    calc {
      multiset{a[0]} + multiset(a[1..]);
      multiset([a[0]] + a[1..]);
      multiset(a);
      multiset(b);
      multiset([b[0]] + b[1..]);
      multiset{a[0]} + multiset(b[1..]);
    }
    assert multiset(a[1..]) == (multiset{a[0]} + multiset(a[1..])) - multiset{a[0]};
    assert multiset(b[1..]) == (multiset{a[0]} + multiset(b[1..])) - multiset{a[0]};
  }

  /** Sorting two rearrangements of one set of distinctly keyed entries gives the same sequence. */
  lemma SortForgetsOrder(e1: seq<Entry>, e2: seq<Entry>)
    requires DistinctKeys(e1) && multiset(e1) == multiset(e2)
    ensures SortEntries(e1) == SortEntries(e2)
  {
    SortEntriesSorts(e1);
    SortEntriesSorts(e2);
    SortedUnique(SortEntries(e1), SortEntries(e2));
  }
}
