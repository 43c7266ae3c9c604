/**
 * The collaborators that search.js imports from `./util`, and the records they
 * exchange with it. Their implementations are not part of this model: the index
 * store is given as data (`Backend`), and each helper is either a field of it or
 * a small function that fixes the contract this model assumes of it.
 */
module Util {
  import opened Wrappers
  import opened JsMaps

  type PageId = string
  type Term = string
  type Key = string
  type BucketKey = string

  /** Fields of a record that the search never inspects, carried along unchanged. */
  type Fields = seq<(string, string)>

  /** The per-page record found in posting and time-bucket maps; `latest` may be absent. */
  datatype Props = Props(latest: Option<int>, rest: Fields)

  /** A map from page ID to its record. */
  type PageMap = Entries<Props>

  datatype TimeRange = TimeRange(start: int, end: int)

  /** The identifying part of a search result: the page ID, or the page's stored document. */
  datatype ResultFields = IdOnly(id: PageId) | Document(doc: Fields)

  datatype SearchResult = SearchResult(fields: ResultFields, score: int)

  /**
   * The index the search reads, in place of the module-level lookup singleton:
   *   termKey     -- `keyGen.term`, the storage key of a query term;
   *   postings    -- what the store holds under each term key (possibly `null`);
   *   rangeLookup -- `rangeLookup(timeRange)`: time-bucket key to the pages in that bucket;
   *   decodeTime  -- `removeKeyType(timeKey)`: the time a bucket key stands for;
   *   docs        -- what the store holds under each page ID.
   */
  datatype Backend = Backend(
    termKey: Term -> Key,
    postings: map<Key, Option<PageMap>>,
    rangeLookup: TimeRange -> Entries<PageMap>,
    decodeTime: BucketKey -> int,
    docs: map<PageId, Fields>)

  /** Every map the backend hands out is a JavaScript `Map`: no key twice. */
  ghost predicate WellFormed(b: Backend) {
    && (forall k :: k in b.postings && b.postings[k].Some? ==> IsMap(b.postings[k].value))
    && (forall tr :: IsMap(b.rangeLookup(tr)))
    && (forall tr, i :: 0 <= i < |b.rangeLookup(tr)| ==> IsMap(b.rangeLookup(tr)[i].1))
  }

  ghost predicate Distinct(ks: seq<string>) {
    forall i, j :: 0 <= i < j < |ks| ==> ks[i] != ks[j]
  }

  /** The requested keys present in `store`, in request order, with their stored values. */
  function Found<V>(store: map<string, V>, keys: seq<string>): Entries<V> {
    if keys == [] then []
    else
      var last := keys[|keys| - 1];
      Found(store, keys[..|keys| - 1]) + (if last in store then [(last, store[last])] else [])
  }

  lemma FoundFacts<V>(store: map<string, V>, keys: seq<string>)
    ensures forall e :: e in Found(store, keys) ==> e.0 in keys && e.0 in store && e.1 == store[e.0]
    ensures forall k :: Has(Found(store, keys), k) <==> k in keys && k in store
    ensures Distinct(keys) ==> IsMap(Found(store, keys))
  {
    FoundEntries(store, keys);
    FoundHas(store, keys);
    if Distinct(keys) {
      FoundIsMap(store, keys);
    }
  }

  lemma {:induction false} FoundEntries<V>(store: map<string, V>, keys: seq<string>)
    ensures forall e :: e in Found(store, keys) ==> e.0 in keys && e.0 in store && e.1 == store[e.0]
  {
    if keys != [] {
      var init := keys[..|keys| - 1];
      FoundEntries(store, init);
      assert keys == init + [keys[|keys| - 1]];
    }
  }

  lemma {:induction false} FoundHas<V>(store: map<string, V>, keys: seq<string>)
    ensures forall k :: Has(Found(store, keys), k) <==> k in keys && k in store
  {
    if keys != [] {
      var init, last := keys[..|keys| - 1], keys[|keys| - 1];
      FoundHas(store, init);
      assert keys == init + [last];
      var tail: Entries<V> := if last in store then [(last, store[last])] else [];
      KeysAppend(Found(store, init), tail);
    }
  }

  lemma {:induction false} FoundIsMap<V>(store: map<string, V>, keys: seq<string>)
    requires Distinct(keys)
    ensures IsMap(Found(store, keys))
  {
    if keys != [] {
      var init, last := keys[..|keys| - 1], keys[|keys| - 1];
      assert forall i :: 0 <= i < |init| ==> init[i] == keys[i];
      assert Distinct(init);
      FoundIsMap(store, init);
      if last in store {
        assert last !in init;
        FoundHas(store, init);
        SnocIsMap(Found(store, init), (last, store[last]));
      }
    }
  }

  /** Values that agree for every entry with key `k` are what the last such entry holds. */
  lemma {:induction false} LastValueUniform<V>(es: Entries<V>, k: string, v: V)
    requires forall e :: e in es && e.0 == k ==> e.1 == v
    ensures LastValue(es, k) == if Has(es, k) then Some(v) else None
  {
    if es != [] {
      assert forall e :: e in es[1..] ==> e in es;
      LastValueUniform(es[1..], k, v);
      KeysCons(es[0], es[1..]);
      assert [es[0]] + es[1..] == es;
    }
  }

  /**
   * `lookupByKeys(keys)`, ASSUMED to return a `Map` holding each requested key that the
   * store has, with its stored value, in request order, and to OMIT absent keys.
   */
  function LookupByKeys<V>(store: map<string, V>, keys: seq<string>): (r: Entries<V>)
    ensures IsMap(r)
    ensures forall e :: e in r ==> e.0 in keys && e.0 in store && e.1 == store[e.0]
  {
    var found := Found(store, keys);
    FoundFacts(store, keys);
    FromEntriesFacts(found);
    FromEntries(found)
  }

  /** The lookup holds `k` exactly when `k` was requested and the store has it, with the stored value. */
  lemma LookupGet<V>(store: map<string, V>, keys: seq<string>, k: string)
    ensures Get(LookupByKeys(store, keys), k) == if k in keys && k in store then Some(store[k]) else None
  {
    var found := Found(store, keys);
    FoundFacts(store, keys);
    FromEntriesFacts(found);
    LookupValues(store, found);
  }

  lemma LookupValues<V>(store: map<string, V>, found: Entries<V>)
    requires forall e :: e in found ==> e.0 in store && e.1 == store[e.0]
    ensures forall k :: LastValue(found, k) == if Has(found, k) then Some(store[k]) else None
  {
    forall k ensures LastValue(found, k) == if Has(found, k) then Some(store[k]) else None {
      if Has(found, k) {
        LastValueUniform(found, k, store[k]);
      } else {
        LastValueAbsent(found, k);
      }
    }
  }

  /** With distinct keys, the lookup's entries come in request order. */
  lemma LookupInOrder<V>(store: map<string, V>, keys: seq<string>)
    requires Distinct(keys)
    ensures LookupByKeys(store, keys) == Found(store, keys)
  {
    FoundFacts(store, keys);
    FromEntriesOfMap(Found(store, keys));
  }

  /** `structureSearchResult(fields, latest)`, assumed to attach `latest` unchanged as the score. */
  function StructureSearchResult(fields: ResultFields, latest: int): (r: SearchResult)
    ensures r.fields == fields && r.score == latest
  {
    SearchResult(fields, latest)
  }
}
