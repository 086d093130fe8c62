/** Canonical CBOR maps, ordered by section 3.9 of RFC 7049 (dpp/src/util/cbor_value.rs). */
module CanonicalCbor {
  import opened Prelude
  import opened ByteOrder
  import opened Values

  type Entry = (Value, Value)
  type Entries = seq<Entry>

  /** Shorter keys first, then byte order. */
  predicate KeyLess(a: Bytes, b: Bytes)
  {
    |a| < |b| || (|a| == |b| && Lt(a, b))
  }

  /** The bytes by which an entry is sorted: those of its text key. */
  function SortKey(e: Entry): Bytes
  {
    if e.0.Text? then e.0.utf8 else []
  }

  predicate TextKeys(es: Entries)
  {
    forall e | e in es :: e.0.Text?
  }

  // ---------- Stable sorting ----------

  /** Before the first entry whose key is not smaller. */
  function Insert(e: Entry, es: Entries): Entries
  {
    if es == [] || !KeyLess(SortKey(es[0]), SortKey(e)) then [e] + es else [es[0]] + Insert(e, es[1..])
  }

  function StableSort(es: Entries): Entries
  {
    if es == [] then [] else Insert(es[0], StableSort(es[1..]))
  }

  predicate Sorted(es: Entries)
  {
    forall i, j | 0 <= i < j < |es| :: !KeyLess(SortKey(es[j]), SortKey(es[i]))
  }

  /** The entries under one key, in order. */
  function Bucket(es: Entries, k: Bytes): (r: Entries)
    ensures forall e :: e in r <==> e in es && SortKey(e) == k
  {
    if es == [] then []
    else (if SortKey(es[0]) == k then [es[0]] else []) + Bucket(es[1..], k)
  }

  lemma KeyOrder(a: Bytes, b: Bytes, c: Bytes)
    ensures KeyLess(a, b) && KeyLess(b, c) ==> KeyLess(a, c)
    ensures KeyLess(a, b) || a == b || KeyLess(b, a)
    ensures KeyLess(a, b) ==> a != b && !KeyLess(b, a)
  {
    Chain(a, b, c);
    Trichotomy(a, b);
  }

  lemma BucketCons(e: Entry, es: Entries, k: Bytes)
    ensures Bucket([e] + es, k) == (if SortKey(e) == k then [e] else []) + Bucket(es, k)
  {
    assert ([e] + es)[1..] == es;
  }

  lemma {:induction false} InsertBucket(e: Entry, es: Entries, k: Bytes)
    ensures Bucket(Insert(e, es), k) == (if SortKey(e) == k then [e] else []) + Bucket(es, k)
  {
    if es == [] || !KeyLess(SortKey(es[0]), SortKey(e)) {
      BucketCons(e, es, k);
    } else {
      InsertBucket(e, es[1..], k);
      KeyOrder(SortKey(es[0]), SortKey(e), k);
      BucketCons(es[0], Insert(e, es[1..]), k);
    }
  }

  /** Sorting keeps the entries under each key, in their order: it is stable and loses nothing. */
  lemma {:induction false} SortBucket(es: Entries, k: Bytes)
    ensures Bucket(StableSort(es), k) == Bucket(es, k)
  {
    if es == [] {
    } else {
      SortBucket(es[1..], k);
      InsertBucket(es[0], StableSort(es[1..]), k);
    }
  }

  lemma {:induction false} InsertMultiset(e: Entry, es: Entries)
    ensures multiset(Insert(e, es)) == multiset{e} + multiset(es)
  {
    if es != [] && KeyLess(SortKey(es[0]), SortKey(e)) {
      InsertMultiset(e, es[1..]);
      assert es == [es[0]] + es[1..];
    }
  }

  lemma {:induction false} SortMultiset(es: Entries)
    ensures multiset(StableSort(es)) == multiset(es)
  {
    if es == [] {
    } else {
      SortMultiset(es[1..]);
      InsertMultiset(es[0], StableSort(es[1..]));
      assert es == [es[0]] + es[1..];
    }
  }

  lemma AtMostTransitive(a: Bytes, b: Bytes, c: Bytes)
    requires !KeyLess(b, a) && !KeyLess(c, b)
    ensures !KeyLess(c, a)
  {
    KeyOrder(a, b, c);
    KeyOrder(c, a, b);
    KeyOrder(b, c, a);
  }

  /** A first entry that is at most every other extends a sorted list. */
  lemma PrependSorted(e: Entry, es: Entries)
    requires Sorted(es) && forall x | x in es :: !KeyLess(SortKey(x), SortKey(e))
    ensures Sorted([e] + es)
  {
  }

  lemma {:induction false} InsertSorted(e: Entry, es: Entries)
    requires Sorted(es)
    ensures Sorted(Insert(e, es))
  {
    if es == [] {
    } else if KeyLess(SortKey(es[0]), SortKey(e)) {
      var rest := Insert(e, es[1..]);
      InsertSorted(e, es[1..]);
      InsertMultiset(e, es[1..]);
      KeyOrder(SortKey(es[0]), SortKey(e), []);
      forall x | x in rest ensures !KeyLess(SortKey(x), SortKey(es[0])) {
        assert x in multiset(rest);
        assert x == e || x in es[1..];
      }
      PrependSorted(es[0], rest);
    } else {
      forall x | x in es ensures !KeyLess(SortKey(x), SortKey(e)) {
        KeyOrder(SortKey(x), SortKey(x), []);
        AtMostTransitive(SortKey(e), SortKey(es[0]), SortKey(x));
      }
      PrependSorted(e, es);
    }
  }

  lemma {:induction false} SortSorted(es: Entries)
    ensures Sorted(StableSort(es))
  {
    if es == [] {
    } else {
      SortSorted(es[1..]);
      InsertSorted(es[0], StableSort(es[1..]));
    }
  }

  /** A sorted list is determined by what lies under each key. Hence `StableSort` is the only stable sort:
      what the library's `sort_by` computes. */
  lemma {:induction false} SortedUnique(a: Entries, b: Entries)
    requires Sorted(a) && Sorted(b) && forall k :: Bucket(a, k) == Bucket(b, k)
    ensures a == b
  {
    forall e ensures e in a <==> e in b {
      assert e in a <==> e in Bucket(a, SortKey(e));
      assert e in b <==> e in Bucket(b, SortKey(e));
    }
    assert forall i | 0 <= i < |a| :: a[i] in b;
    assert forall i | 0 <= i < |b| :: b[i] in a;
    if a != [] && b != [] {
      var k := SortKey(a[0]);
      assert a[0] in b && b[0] in a;
      KeyOrder(k, SortKey(b[0]), []);
      assert SortKey(b[0]) == k;
      assert Bucket(a, k)[0] == a[0] && Bucket(b, k)[0] == b[0];
      forall j ensures Bucket(a[1..], j) == Bucket(b[1..], j) {
        assert Bucket(a, j) == Bucket(b, j);
        assert Bucket(a[1..], j) == Bucket(a, j)[if j == k then 1 else 0..];
        assert Bucket(b[1..], j) == Bucket(b, j)[if j == k then 1 else 0..];
      }
      SortedUnique(a[1..], b[1..]);
      assert a == [a[0]] + a[1..] && b == [b[0]] + b[1..];
    }
  }

  // ---------- The recursive canonical form ----------

  /** Nested maps are put in order first, as values of the map they are in. */
  function CanonicalValue(v: Value): (r: Value)
    ensures r.Map? <==> v.Map?
    decreases v, 0
  {
    if v.Map? then Map(Canonical(v.entries)) else v
  }

  function CanonicalEntry(e: Entry): Entry
    decreases e, 0
  {
    (e.0, CanonicalValue(e.1))
  }

  function CanonicalValues(es: Entries): (r: Entries)
    ensures |r| == |es| && forall i | 0 <= i < |es| :: r[i] == CanonicalEntry(es[i])
    decreases es, 0
  {
    if es == [] then [] else [CanonicalEntry(es[0])] + CanonicalValues(es[1..])
  }

  /** The content of a map after `sort_canonical`. */
  function Canonical(es: Entries): Entries
    decreases es, 1
  {
    StableSort(CanonicalValues(es))
  }

  /** The source's walk: nested maps are sorted where they stand, then the entries around them. */
  method RecursivelySortCanonicalCborMap(es: Entries) returns (sorted: Entries)
    ensures sorted == Canonical(es)
    decreases es
  {
    sorted := es;
    for n := 0 to |es|
      invariant |sorted| == |es|
      invariant forall i | 0 <= i < |es| :: sorted[i] == if i < n then CanonicalEntry(es[i]) else es[i]
    {
      var entry := SortValue(es[n]);
      sorted := sorted[n := entry];
    }
    assert sorted == CanonicalValues(es);
    sorted := StableSort(sorted);
  }

  method SortValue(e: Entry) returns (sorted: Entry)
    ensures sorted == CanonicalEntry(e)
    decreases e
  {
    sorted := e;
    if e.1.Map? {
      var inner := RecursivelySortCanonicalCborMap(e.1.entries);
      sorted := (e.0, Map(inner));
    }
  }

  /** Sorting more than one entry reads every key as text, here and in nested maps. */
  predicate Sortable(es: Entries)
    decreases es
  {
    (|es| >= 2 ==> TextKeys(es)) && forall i | 0 <= i < |es| :: SortableEntry(es[i])
  }

  predicate SortableEntry(e: Entry)
    decreases e
  {
    e.1.Map? ==> Sortable(e.1.entries)
  }

  predicate InOrder(es: Entries)
    decreases es
  {
    Sorted(es) && forall i | 0 <= i < |es| :: InOrderEntry(es[i])
  }

  predicate InOrderEntry(e: Entry)
    decreases e
  {
    e.1.Map? ==> InOrder(e.1.entries)
  }

  /** The canonical form has the same entries, with canonical values, and every map in it is in order. */
  lemma {:induction false} CanonicalForm(es: Entries)
    ensures multiset(Canonical(es)) == multiset(CanonicalValues(es))
    ensures InOrder(Canonical(es))
    decreases es
  {
    var vs := CanonicalValues(es);
    SortMultiset(vs);
    SortSorted(vs);
    forall i | 0 <= i < |Canonical(es)| ensures InOrderEntry(Canonical(es)[i]) {
      assert Canonical(es)[i] in multiset(vs);
      var j :| 0 <= j < |vs| && vs[j] == Canonical(es)[i];
      CanonicalEntryForm(es[j]);
    }
  }

  lemma {:induction false} CanonicalEntryForm(e: Entry)
    ensures InOrderEntry(CanonicalEntry(e))
    decreases e
  {
    if e.1.Map? {
      CanonicalForm(e.1.entries);
    }
  }

  /** The order spelled out: of two entries, the earlier has the shorter key, or one of equal length that is
      not greater, byte by byte. */
  lemma InCanonicalOrder(es: Entries, i: nat, j: nat)
    requires i < j < |es|
    ensures |Canonical(es)| == |es|
    ensures var a, b := SortKey(Canonical(es)[i]), SortKey(Canonical(es)[j]);
            |a| < |b| || (|a| == |b| && Le(a, b))
  {
    CanonicalForm(es);
    assert |multiset(Canonical(es))| == |multiset(CanonicalValues(es))|;
    var a, b := SortKey(Canonical(es)[i]), SortKey(Canonical(es)[j]);
    assert !KeyLess(b, a);
    Trichotomy(a, b);
  }

  /** What is in order is its own canonical form. */
  lemma {:induction false} InOrderIsCanonical(es: Entries)
    requires InOrder(es)
    ensures Canonical(es) == es
    decreases es
  {
    forall i | 0 <= i < |es| ensures CanonicalEntry(es[i]) == es[i] {
      InOrderEntryIsCanonical(es[i]);
    }
    assert CanonicalValues(es) == es;
    SortedIsFixed(es);
  }

  lemma {:induction false} InOrderEntryIsCanonical(e: Entry)
    requires InOrderEntry(e)
    ensures CanonicalEntry(e) == e
    decreases e
  {
    if e.1.Map? {
      InOrderIsCanonical(e.1.entries);
    }
  }

  lemma SortedIsFixed(es: Entries)
    requires Sorted(es)
    ensures StableSort(es) == es
  {
    SortSorted(es);
    forall k ensures Bucket(StableSort(es), k) == Bucket(es, k) {
      SortBucket(es, k);
    }
    SortedUnique(StableSort(es), es);
  }

  /** Putting a map in canonical order twice is putting it in order once. */
  lemma CanonicalIdempotent(es: Entries)
    ensures Canonical(Canonical(es)) == Canonical(es)
  {
    CanonicalForm(es);
    InOrderIsCanonical(Canonical(es));
  }

  // ---------- Lookup ----------

  /** The value of the first entry with the given text key. */
  function GetKey(es: Entries, key: Bytes): Option<Value>
  {
    if es == [] then None
    else if es[0].0 == Text(key) then Some(es[0].1)
    else GetKey(es[1..], key)
  }

  method GetKeyFromCborMap(es: Entries, key: Bytes) returns (r: Option<Value>)
    ensures r == GetKey(es, key)
  {
    assert es[0..] == es;
    for n := 0 to |es|
      invariant GetKey(es, key) == GetKey(es[n..], key)
    {
      assert es[n..][0] == es[n] && es[n..][1..] == es[n + 1..];
      if es[n].0.Text? && es[n].0.utf8 == key {
        return Some(es[n].1);
      }
    }
    return None;
  }

  lemma {:induction false} GetKeyFromBucket(es: Entries, key: Bytes)
    requires TextKeys(es)
    ensures GetKey(es, key) == if Bucket(es, key) == [] then None else Some(Bucket(es, key)[0].1)
  {
    if es == [] {
    } else {
      assert es[0] in es;
      assert forall e | e in es[1..] :: e in es;
      GetKeyFromBucket(es[1..], key);
    }
  }

  lemma {:induction false} CanonicalValuesBucket(es: Entries, key: Bytes)
    ensures Bucket(CanonicalValues(es), key) == CanonicalValues(Bucket(es, key))
  {
    if es == [] {
    } else {
      CanonicalValuesBucket(es[1..], key);
      assert CanonicalValues(es)[1..] == CanonicalValues(es[1..]);
      if SortKey(es[0]) == key {
        assert Bucket(es, key) == [es[0]] + Bucket(es[1..], key);
        assert Bucket(es, key)[1..] == Bucket(es[1..], key);
      }
    }
  }

  /** A lookup finds the same entry before and after, even when a key occurs more than once. */
  lemma LookupAfterSort(es: Entries, key: Bytes)
    requires Sortable(es)
    ensures GetKey(Canonical(es), key) ==
            match GetKey(es, key) case Some(v) => Some(CanonicalValue(v)) case None => None
  {
    if |es| >= 2 {
      var vs := CanonicalValues(es);
      SortMultiset(vs);
      forall e | e in StableSort(vs) ensures e.0.Text? {
        assert e in multiset(vs);
        var i :| 0 <= i < |vs| && vs[i] == e;
        assert es[i] in es;
      }
      GetKeyFromBucket(Canonical(es), key);
      GetKeyFromBucket(es, key);
      SortBucket(vs, key);
      CanonicalValuesBucket(es, key);
    } else if |es| == 1 {
      assert es[1..] == [] && CanonicalValues(es) == [CanonicalEntry(es[0])];
      assert CanonicalValues(es)[1..] == [];
      assert StableSort(CanonicalValues(es)) == [CanonicalEntry(es[0])];
    }
  }

  // ---------- Canonical form decides equality of content ----------

  /** Text keys without repetition, here and in nested maps. */
  predicate Distinct(es: Entries)
    decreases es
  {
    TextKeys(es) && (forall i, j | 0 <= i < j < |es| :: es[i].0 != es[j].0) &&
    forall i | 0 <= i < |es| :: DistinctEntry(es[i])
  }

  predicate DistinctEntry(e: Entry)
    decreases e
  {
    e.1.Map? ==> Distinct(e.1.entries)
  }

  /** The same entries up to the order in which maps, at any depth, list them. */
  predicate SameContent(a: Entries, b: Entries)
    decreases a, 1
  {
    (forall i | 0 <= i < |a| :: HasPartner(a[i], b)) && (forall j | 0 <= j < |b| :: IsPartner(a, b[j]))
  }

  predicate HasPartner(x: Entry, b: Entries)
    decreases x, 1
  {
    exists j | 0 <= j < |b| :: SameEntry(x, b[j])
  }

  predicate IsPartner(a: Entries, y: Entry)
    decreases a, 0
  {
    exists i | 0 <= i < |a| :: SameEntry(a[i], y)
  }

  predicate SameEntry(x: Entry, y: Entry)
    decreases x, 0
  {
    x.0 == y.0 && if x.1.Map? && y.1.Map? then SameContent(x.1.entries, y.1.entries) else x.1 == y.1
  }

  lemma {:induction false} EmptyBucket(es: Entries, k: Bytes)
    requires forall e | e in es :: SortKey(e) != k
    ensures Bucket(es, k) == []
  {
    if es == [] {
    } else {
      assert es[0] in es && forall e | e in es[1..] :: e in es;
      EmptyBucket(es[1..], k);
    }
  }

  /** With distinct keys there is at most one entry under each. */
  lemma {:induction false} DistinctBucket(es: Entries, i: nat)
    requires TextKeys(es) && i < |es| && forall i, j | 0 <= i < j < |es| :: es[i].0 != es[j].0
    ensures Bucket(es, SortKey(es[i])) == [es[i]]
  {
    var k := SortKey(es[i]);
    assert es[0] in es && es[i] in es;
    assert forall e | e in es[1..] :: e in es;
    if i == 0 {
      forall e | e in es[1..] ensures SortKey(e) != k {
        var j :| 0 <= j < |es[1..]| && es[1..][j] == e;
        assert es[0].0 != es[j + 1].0;
      }
      EmptyBucket(es[1..], k);
    } else {
      DistinctBucket(es[1..], i - 1);
      assert es[1..][i - 1] == es[i];
    }
  }

  lemma CanonicalValuesDistinct(es: Entries)
    requires Distinct(es)
    ensures TextKeys(CanonicalValues(es))
    ensures forall i, j | 0 <= i < j < |es| :: CanonicalValues(es)[i].0 != CanonicalValues(es)[j].0
  {
    var vs := CanonicalValues(es);
    forall e | e in vs ensures e.0.Text? {
      var i :| 0 <= i < |vs| && vs[i] == e;
      assert es[i] in es;
    }
  }

  /** Entries that all occur in another map lie under each key as they do there. */
  lemma BucketIncluded(a: Entries, b: Entries, k: Bytes)
    requires Distinct(a) && Distinct(b) && forall e | e in CanonicalValues(a) :: e in CanonicalValues(b)
    ensures var x := Bucket(CanonicalValues(a), k);
            x == [] || x == Bucket(CanonicalValues(b), k)
  {
    var va, vb := CanonicalValues(a), CanonicalValues(b);
    CanonicalValuesDistinct(a);
    CanonicalValuesDistinct(b);
    if Bucket(va, k) != [] {
      var e := Bucket(va, k)[0];
      assert e in Bucket(va, k);
      var i :| 0 <= i < |va| && va[i] == e;
      var j :| 0 <= j < |vb| && vb[j] == e;
      DistinctBucket(va, i);
      DistinctBucket(vb, j);
    }
  }

  /** Maps with the same canonical entries, in whatever order, have the same canonical form. */
  lemma SameEntriesSameForm(a: Entries, b: Entries)
    requires Distinct(a) && Distinct(b) && forall e :: e in CanonicalValues(a) <==> e in CanonicalValues(b)
    ensures Canonical(a) == Canonical(b)
  {
    var va, vb := CanonicalValues(a), CanonicalValues(b);
    SortSorted(va);
    SortSorted(vb);
    forall k ensures Bucket(StableSort(va), k) == Bucket(StableSort(vb), k) {
      SortBucket(va, k);
      SortBucket(vb, k);
      BucketIncluded(a, b, k);
      BucketIncluded(b, a, k);
    }
    SortedUnique(StableSort(va), StableSort(vb));
  }

  lemma {:induction false} SameContentSameForm(a: Entries, b: Entries)
    requires Distinct(a) && Distinct(b) && SameContent(a, b)
    ensures Canonical(a) == Canonical(b)
    decreases a, 1
  {
    forall e ensures e in CanonicalValues(a) <==> e in CanonicalValues(b) {
      if e in CanonicalValues(a) {
        CanonicalEntryShared(a, b, e);
      }
      if e in CanonicalValues(b) {
        CanonicalEntryBack(a, b, e);
      }
    }
    SameEntriesSameForm(a, b);
  }

  lemma {:induction false} CanonicalEntryShared(a: Entries, b: Entries, e: Entry)
    requires Distinct(a) && Distinct(b) && SameContent(a, b) && e in CanonicalValues(a)
    ensures e in CanonicalValues(b)
    decreases a, 0
  {
    var i :| 0 <= i < |a| && CanonicalEntry(a[i]) == e;
    assert HasPartner(a[i], b);
    var j :| 0 <= j < |b| && SameEntry(a[i], b[j]);
    SameEntrySameForm(a[i], b[j]);
    assert CanonicalValues(b)[j] == e;
  }

  lemma {:induction false} CanonicalEntryBack(a: Entries, b: Entries, e: Entry)
    requires Distinct(a) && Distinct(b) && SameContent(a, b) && e in CanonicalValues(b)
    ensures e in CanonicalValues(a)
    decreases a, 0
  {
    var j :| 0 <= j < |b| && CanonicalEntry(b[j]) == e;
    assert IsPartner(a, b[j]);
    var i :| 0 <= i < |a| && SameEntry(a[i], b[j]);
    SameEntrySameForm(a[i], b[j]);
    assert CanonicalValues(a)[i] == e;
  }

  lemma {:induction false} SameEntrySameForm(x: Entry, y: Entry)
    requires DistinctEntry(x) && DistinctEntry(y) && SameEntry(x, y)
    ensures CanonicalEntry(x) == CanonicalEntry(y)
    decreases x
  {
    if x.1.Map? && y.1.Map? {
      SameContentSameForm(x.1.entries, y.1.entries);
    }
  }

  /** An entry of one map finds its partner in any map with the same canonical form. */
  lemma PartnerOf(a: Entries, b: Entries, i: nat) returns (j: nat)
    requires Canonical(a) == Canonical(b) && i < |a|
    ensures j < |b| && CanonicalEntry(a[i]) == CanonicalEntry(b[j])
  {
    var va, vb := CanonicalValues(a), CanonicalValues(b);
    SortMultiset(va);
    SortMultiset(vb);
    assert va[i] in multiset(va) && multiset(va) == multiset(vb);
    j :| 0 <= j < |vb| && vb[j] == va[i];
  }

  lemma {:induction false} SameFormSameContent(a: Entries, b: Entries)
    requires Canonical(a) == Canonical(b)
    ensures SameContent(a, b)
    decreases a
  {
    forall i | 0 <= i < |a| ensures HasPartner(a[i], b) {
      var j := PartnerOf(a, b, i);
      SameFormSameEntry(a[i], b[j]);
    }
    forall j | 0 <= j < |b| ensures IsPartner(a, b[j]) {
      var i := PartnerOf(b, a, j);
      SameFormSameEntry(a[i], b[j]);
    }
  }

  lemma {:induction false} SameFormSameEntry(x: Entry, y: Entry)
    requires CanonicalEntry(x) == CanonicalEntry(y)
    ensures SameEntry(x, y)
    decreases x
  {
    if x.1.Map? && y.1.Map? {
      SameFormSameContent(x.1.entries, y.1.entries);
    }
  }

  /** The form is canonical: maps with distinct keys have equal forms exactly when they differ at most in
      the order in which they and their nested maps list their entries. */
  lemma CanonicalDecidesContent(a: Entries, b: Entries)
    requires Distinct(a) && Distinct(b)
    ensures Canonical(a) == Canonical(b) <==> SameContent(a, b)
  {
    if SameContent(a, b) {
      SameContentSameForm(a, b);
    }
    if Canonical(a) == Canonical(b) {
      SameFormSameContent(a, b);
    }
  }

  // ---------- The mutable map ----------

  class CborCanonicalMap {
    var inner: Entries

    constructor ()
      ensures inner == []
    {
      inner := [];
    }

    method Insert(key: Bytes, value: Value)
      modifies this
      ensures inner == old(inner) + [(Text(key), value)]
    {
      inner := inner + [(Text(key), value)];
    }

    /** Drops the first entry with an equal key, if there is one. */
    method Remove(key: Value)
      modifies this
      ensures match FirstIndex(old(inner), key)
              case None => inner == old(inner)
              case Some(i) => inner == old(inner)[..i] + old(inner)[i + 1..]
    {
      var index := FirstIndex(inner, key);
      if index.Some? {
        inner := inner[..index.value] + inner[index.value + 1..];
      }
    }

    method Set(key: Value, value: Value) returns (found: bool)
      modifies this
      ensures found == FirstIndex(old(inner), key).Some?
      ensures match FirstIndex(old(inner), key)
              case None => inner == old(inner)
              case Some(i) => inner == old(inner)[i := (old(inner)[i].0, value)]
    {
      var index := FirstIndex(inner, key);
      found := index.Some?;
      if found {
        inner := inner[index.value := (inner[index.value].0, value)];
      }
    }

    method SortCanonical()
      requires Sortable(inner)
      modifies this
      ensures inner == Canonical(old(inner))
    {
      inner := RecursivelySortCanonicalCborMap(inner);
    }

    method ToValueSorted() returns (v: Value)
      requires Sortable(inner)
      modifies this
      ensures v == Map(Canonical(old(inner)))
    {
      SortCanonical();
      return Map(inner);
    }
  }

  /** The position of the first entry whose key equals the given one. */
  function FirstIndex(es: Entries, key: Value): (r: Option<nat>)
    ensures match r
            case None => forall i | 0 <= i < |es| :: !Eq(es[i].0, key)
            case Some(n) => n < |es| && Eq(es[n].0, key) && forall i | 0 <= i < n :: !Eq(es[i].0, key)
  {
    if es == [] then None
    else if Eq(es[0].0, key) then Some(0)
    else
      match FirstIndex(es[1..], key)
      case None => None
      case Some(n) => Some(n + 1)
  }
}
