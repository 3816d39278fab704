/**
 * PDFDictionary: a keyed container over the backing dictionary of the
 * parsed file. Its resolved entries are materialised into the cache nsd
 * the first time a key is queried; count, allKeys, allValues and the
 * comparison read the backing dictionary, so they answer the same before
 * and after that.
 */
module Dictionaries {
  import opened Wrappers
  import opened Primitives
  import opened Objects

  /** The entries a backing dictionary really has: an entry whose value is
      null counts as absent (section 7.3.7 of ISO 32000-1). */
  function Entries(dict: map<string, Primitive>): (r: map<string, Primitive>)
    ensures forall k :: k in r <==> k in dict && KindOf(dict[k]) != Null
    ensures forall k :: k in r ==> r[k] == dict[k]
  {
    map k | k in dict && KindOf(dict[k]) != Null :: dict[k]
  }

  /** Storing null under a key is the same as removing the key: no query,
      count or comparison can tell the two dictionaries apart. */
  lemma NullEntryIsAbsent(dict: map<string, Primitive>, k: string, v: Primitive)
    requires KindOf(v) == Null
    ensures Entries(dict[k := v]) == Entries(dict - {k})
    ensures |Entries(dict[k := v])| <= |dict[k := v]| - 1
  {
    var e := Entries(dict[k := v]);
    assert e.Keys <= dict[k := v].Keys - {k};
    SubsetSize(e.Keys, dict[k := v].Keys - {k});
    assert |e| == |e.Keys|;
    assert |dict[k := v]| == |dict[k := v].Keys|;
  }

  /** The value stored under k, resolved as a directly held object. */
  function ObjectFor(dict: map<string, Primitive>, k: string): (r: Option<PdfObject>)
    ensures r.None? <==> k !in Entries(dict)
    ensures r.Some? ==> KindOfObject(r.value) == KindOf(dict[k]) && WellFormed(r.value)
  {
    if k in dict then Resolve(dict[k], Direct) else None
  }

  /** What the cache nsd holds once filled: every entry, resolved. */
  ghost function Materialized(dict: map<string, Primitive>): (m: map<string, PdfObject>)
    ensures m.Keys == Entries(dict).Keys
    ensures forall k :: k in m ==> ObjectFor(dict, k) == Some(m[k])
  {
    var e := Entries(dict);
    map k | k in e :: Resolve(e[k], Direct).value
  }

  /** Two maps with the same keys have the same number of entries. */
  lemma SameKeysSameSize<U, V>(a: map<string, U>, b: map<string, V>)
    requires a.Keys == b.Keys
    ensures |a| == |b|
  {
    assert |a| == |a.Keys|;
    assert |b| == |b.Keys|;
  }

  /** A subset as large as a finite set is the whole set. */
  lemma {:induction false} FullSubset<T>(a: set<T>, b: set<T>)
    requires a <= b && |a| == |b|
    ensures a == b
  {
    if a != b {
      var x :| x in b && x !in a;
      assert a <= b - {x};
      assert |b - {x}| == |b| - 1;
      SubsetSize(a, b - {x});
    }
  }

  lemma {:induction false} SubsetSize<T>(a: set<T>, b: set<T>)
    requires a <= b
    ensures |a| <= |b|
    decreases |a|
  {
    if a != {} {
      var x :| x in a;
      SubsetSize(a - {x}, b - {x});
    }
  }

  /** isEqualToDictionary: the same number of entries, and for each key
      of the one a value under that key in the other that is isEqual: to it. */
  ghost predicate SameContents(a: map<string, Primitive>, b: map<string, Primitive>)
  {
    && |Entries(a)| == |Entries(b)|
    && forall k :: k in Entries(a) ==> k in Entries(b) && SameObject(ObjectFor(a, k).value, ObjectFor(b, k).value)
  }

  /** The comparison holds exactly when both caches would hold the same keys
      with isEqual: values under each. */
  lemma SameContentsIffSameCache(a: map<string, Primitive>, b: map<string, Primitive>)
    ensures SameContents(a, b) <==>
      && Materialized(a).Keys == Materialized(b).Keys
      && forall k :: k in Materialized(a) ==> SameObject(Materialized(a)[k], Materialized(b)[k])
  {
    var ma, mb := Materialized(a), Materialized(b);
    if SameContents(a, b) {
      FullSubset(Entries(a).Keys, Entries(b).Keys);
      assert ma.Keys == mb.Keys;
    }
    if ma.Keys == mb.Keys && forall k :: k in ma ==> SameObject(ma[k], mb[k]) {
      SameKeysSameSize(Entries(a), Entries(b));
      forall k | k in Entries(a)
        ensures k in Entries(b) && SameObject(ObjectFor(a, k).value, ObjectFor(b, k).value)
      {
        assert k in ma;
      }
    }
  }

  /** Dictionaries whose caches are identical are equal; the converse fails
      only by the spelling of numbers. */
  lemma SameCacheSameContents(a: map<string, Primitive>, b: map<string, Primitive>)
    requires Materialized(a) == Materialized(b)
    ensures SameContents(a, b)
  {
    SameContentsIffSameCache(a, b);
    forall k | k in Materialized(a) ensures SameObject(Materialized(a)[k], Materialized(b)[k]) {
      SameObjectIsEquivalence(Materialized(a)[k], Materialized(a)[k], Materialized(a)[k]);
    }
  }

  /** isEqualToDictionary is an equivalence on backing dictionaries. */
  lemma SameContentsIsEquivalence(a: map<string, Primitive>, b: map<string, Primitive>, c: map<string, Primitive>)
    ensures SameContents(a, a)
    ensures SameContents(a, b) <==> SameContents(b, a)
    ensures SameContents(a, b) && SameContents(b, c) ==> SameContents(a, c)
  {
    SameCacheSameContents(a, a);
    SameContentsIffSameCache(a, b);
    SameContentsIffSameCache(b, a);
    SameContentsIffSameCache(b, c);
    SameContentsIffSameCache(a, c);
    var ma, mb, mc := Materialized(a), Materialized(b), Materialized(c);
    forall k | k in ma && k in mb && k in mc
      ensures SameObject(ma[k], mb[k]) <==> SameObject(mb[k], ma[k])
      ensures SameObject(ma[k], mb[k]) && SameObject(mb[k], mc[k]) ==> SameObject(ma[k], mc[k])
    {
      SameObjectIsEquivalence(ma[k], mb[k], mc[k]);
    }
  }

  /** Two dictionaries that differ at most in one key, whose values there
      pass the isEqual: test, compare equal. */
  lemma SameAtOneKey(a: map<string, Primitive>, k: string, v: Primitive, w: Primitive)
    requires KindOf(v) != Null && KindOf(w) != Null
    requires SameObject(Resolve(v, Direct).value, Resolve(w, Direct).value)
    ensures SameContents(a[k := v], a[k := w])
  {
    var b, c := a[k := v], a[k := w];
    assert Entries(b).Keys == Entries(c).Keys;
    SameKeysSameSize(Entries(b), Entries(c));
    forall j | j in Entries(b) ensures SameObject(ObjectFor(b, j).value, ObjectFor(c, j).value) {
      if j != k {
        SameObjectIsEquivalence(ObjectFor(b, j).value, ObjectFor(b, j).value, ObjectFor(b, j).value);
      }
    }
  }

  /** The same value spelt 1, 1.0 or 1.00 under a key leaves two
      dictionaries equal. */
  lemma NumberSpellingDoesNotMatter(a: map<string, Primitive>, k: string)
    ensures SameContents(a[k := PInteger(1)], a[k := PReal(10, 1)])
    ensures SameContents(a[k := PReal(10, 1)], a[k := PReal(100, 2)])
  {
    NumbersCompareByValue();
    SameAtOneKey(a, k, PInteger(1), PReal(10, 1));
    SameAtOneKey(a, k, PReal(10, 1), PReal(100, 2));
  }

  /** One extra non-null key makes two dictionaries unequal. */
  lemma ExtraKeyBreaksEquality(a: map<string, Primitive>, k: string, v: Primitive)
    requires k !in Entries(a) && KindOf(v) != Null
    ensures !SameContents(a, a[k := v])
    ensures !SameContents(a[k := v], a)
  {
    var b := a[k := v];
    assert Entries(b).Keys == Entries(a).Keys + {k};
    assert |Entries(b)| == |Entries(b).Keys|;
    assert |Entries(a)| == |Entries(a).Keys|;
  }

  class PdfDictionary {
    /** The backing dictionary (the CGPDFDictionaryRef). */
    const dict: map<string, Primitive>
    /** How the dictionary was reached: its object and generation numbers. */
    const ref: ObjRef
    /** The cache: None until the first key query fills it. */
    var nsd: Option<map<string, PdfObject>>
    /** The dictionary this one is the value of, if any. */
    var parent: PdfDictionary?

    ghost predicate Valid()
      reads this
    {
      nsd.Some? ==> nsd.value == Materialized(dict)
    }

    /** initWithDictionary: nothing is read from the backing dictionary yet. */
    constructor(pdict: map<string, Primitive>, pref: ObjRef)
      ensures dict == pdict && ref == pref
      ensures nsd == None && parent == null
      ensures Valid()
    {
      dict := pdict;
      ref := pref;
      nsd := None;
      parent := null;
    }

    /** Fills the cache on the first query; later queries reuse it. */
    method Materialize()
      requires Valid()
      modifies this
      ensures Valid() && nsd == Some(Materialized(dict))
      ensures parent == old(parent)
    {
      if nsd.Some? {
        return;
      }
      var entries := Entries(dict);
      var pending := entries.Keys;
      var m: map<string, PdfObject> := map[];
      while pending != {}
        invariant pending <= entries.Keys
        invariant forall k :: k in m <==> k in entries && k !in pending
        invariant forall k :: k in m ==> ObjectFor(dict, k) == Some(m[k])
        decreases |pending|
      {
        var k :| k in pending;
        m := m[k := Resolve(dict[k], Direct).value];
        pending := pending - {k};
      }
      nsd := Some(m);
    }

    /** objectForKey: answered from the cache; the answer is the backing
        dictionary's, so filling the cache changes no answer. */
    method ObjectForKey(k: string) returns (r: Option<PdfObject>)
      requires Valid()
      modifies this
      ensures Valid() && nsd == Some(Materialized(dict))
      ensures parent == old(parent)
      ensures r.None? <==> k !in Entries(dict)
      ensures r == ObjectFor(dict, k)
    {
      Materialize();
      var cache := nsd.value;
      if k in cache {
        r := Some(cache[k]);
      } else {
        r := None;
      }
    }

    /** typeForKey: the kind of the value under k, nothing when there is none. */
    method TypeForKey(k: string) returns (t: Option<Kind>)
      requires Valid()
      modifies this
      ensures Valid() && nsd == Some(Materialized(dict))
      ensures parent == old(parent)
      ensures t.None? <==> k !in Entries(dict)
      ensures t.Some? ==> t.value == KindOf(dict[k]) && t.value != Null
    {
      Materialize();
      var cache := nsd.value;
      if k in cache {
        t := Some(KindOfObject(cache[k]));
      } else {
        t := None;
      }
    }

    /** count: the cache once filled, the backing dictionary before; both
        give the number of entries. */
    method Count() returns (n: nat)
      requires Valid()
      ensures n == |Entries(dict)|
    {
      if nsd.Some? {
        SameKeysSameSize(nsd.value, Entries(dict));
        n := |nsd.value|;
      } else {
        n := |Entries(dict)|;
      }
    }

    /** allKeys: each key once, in no particular order. */
    method AllKeys() returns (keys: seq<string>)
      ensures forall k :: k in keys <==> k in Entries(dict)
      ensures |keys| == |Entries(dict)|
      ensures forall i, j :: 0 <= i < j < |keys| ==> keys[i] != keys[j]
    {
      var pending := Entries(dict).Keys;
      keys := [];
      while pending != {}
        invariant pending <= Entries(dict).Keys
        invariant forall k :: k in keys <==> k in Entries(dict) && k !in pending
        invariant |keys| + |pending| == |Entries(dict).Keys|
        invariant forall i, j :: 0 <= i < j < |keys| ==> keys[i] != keys[j]
        decreases |pending|
      {
        var k :| k in pending;
        keys := keys + [k];
        pending := pending - {k};
      }
    }

    /** allValues: one resolved value per entry, in the order of some
        enumeration of the keys. */
    method AllValues() returns (values: seq<PdfObject>, ghost keys: seq<string>)
      ensures |values| == |Entries(dict)|
      ensures forall v :: v in values ==> v in Materialized(dict).Values
      ensures |keys| == |values|
      ensures forall k :: k in keys <==> k in Entries(dict)
      ensures forall i, j :: 0 <= i < j < |keys| ==> keys[i] != keys[j]
      ensures forall i :: 0 <= i < |values| ==> ObjectFor(dict, keys[i]) == Some(values[i])
    {
      var pending := Entries(dict).Keys;
      values, keys := [], [];
      while pending != {}
        invariant pending <= Entries(dict).Keys
        invariant |values| == |keys|
        invariant forall k :: k in keys <==> k in Entries(dict) && k !in pending
        invariant |keys| + |pending| == |Entries(dict).Keys|
        invariant forall i, j :: 0 <= i < j < |keys| ==> keys[i] != keys[j]
        invariant forall i :: 0 <= i < |values| ==> ObjectFor(dict, keys[i]) == Some(values[i])
        decreases |pending|
      {
        var k :| k in pending;
        values := values + [Resolve(dict[k], Direct).value];
        keys := keys + [k];
        pending := pending - {k};
      }
      forall v | v in values ensures v in Materialized(dict).Values {
        var i :| 0 <= i < |values| && values[i] == v;
        assert Materialized(dict)[keys[i]] == v;
      }
    }

    /** isEqualToDictionary: counts first, then key by key. */
    method IsEqualToDictionary(other: PdfDictionary) returns (eq: bool)
      ensures eq <==> SameContents(dict, other.dict)
    {
      var mine, theirs := Entries(dict), Entries(other.dict);
      if |mine| != |theirs| {
        return false;
      }
      var pending := mine.Keys;
      while pending != {}
        invariant pending <= mine.Keys
        invariant forall k :: k in mine && k !in pending ==>
          k in theirs && SameObject(ObjectFor(dict, k).value, ObjectFor(other.dict, k).value)
        decreases |pending|
      {
        var k :| k in pending;
        if k !in theirs || !SameObject(Resolve(mine[k], Direct).value, Resolve(theirs[k], Direct).value) {
          return false;
        }
        pending := pending - {k};
      }
      return true;
    }

    /** The value under k as a dictionary of its own, whose parent is this
        one; nothing when k holds no dictionary. */
    method ChildDictionary(k: string) returns (c: PdfDictionary?)
      ensures c == null <==> k !in Entries(dict) || KindOf(dict[k]) != Dictionary
      ensures c != null ==> fresh(c) && c.parent == this && c.nsd.None? && c.Valid()
      ensures c != null ==> c.dict == Target(dict[k]).entries && c.ref == OuterRef(dict[k], Direct)
    {
      var o := ObjectFor(dict, k);
      var view := if o.Some? then AsDictionary(o.value) else None;
      if view.Some? {
        ResolveKeepsTarget(dict[k], Direct);
        c := new PdfDictionary(view.value, RefOf(o.value));
        c.parent := this;
      } else {
        c := null;
      }
    }
  }
}
