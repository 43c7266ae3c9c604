/**
 * The query pipeline of src/search/search-index/search.js: term search (AND of
 * posting maps), filter search (union of time buckets), their combination,
 * ranking by score and pagination. Lookups are reads of a given `Backend`.
 */
module Search {
  import opened Wrappers
  import opened JsMaps
  import opened Util

  // ---------------------------------------------------------------------------
  // paginate

  function Min(a: int, b: int): int {
    if a <= b then a else b
  }

  /** `results.slice(skip, skip + limit)` for non-negative `skip` and `limit`. */
  function Paginate<T>(results: seq<T>, skip: nat, limit: nat): (page: seq<T>)
    ensures |page| <= limit
    ensures skip >= |results| ==> page == []
    ensures skip < |results| ==> |page| == Min(limit, |results| - skip)
    ensures forall i :: 0 <= i < |page| ==> skip + i < |results| && page[i] == results[skip + i]
  {
    results[Min(skip, |results|)..Min(skip + limit, |results|)]
  }

  // ---------------------------------------------------------------------------
  // ranking: compareByScore and `results.sort(compareByScore)`

  /** Negative when `a` must come first: the comparator orders by descending score. */
  function CompareByScore(a: SearchResult, b: SearchResult): (c: int)
    ensures c < 0 <==> a.score > b.score
    ensures c > 0 <==> a.score < b.score
  {
    b.score - a.score
  }

  ghost predicate SortedByScore(s: seq<SearchResult>) {
    forall i, j :: 0 <= i < j < |s| ==> s[i].score >= s[j].score
  }

  /** The results of score `score`, in their order. */
  function WithScore(s: seq<SearchResult>, score: int): (r: seq<SearchResult>)
    ensures forall e :: e in r ==> e in s && e.score == score
  {
    if s == [] then []
    else (if s[0].score == score then [s[0]] else []) + WithScore(s[1..], score)
  }

  function Scores(s: seq<SearchResult>): seq<int> {
    seq(|s|, i requires 0 <= i < |s| => s[i].score)
  }

  /** Put `x` in front of the first element that `x` does not have to follow. */
  function Insert(x: SearchResult, t: seq<SearchResult>): seq<SearchResult> {
    if t == [] || CompareByScore(x, t[0]) <= 0 then [x] + t
    else [t[0]] + Insert(x, t[1..])
  }

  /**
   * `Array.prototype.sort(compareByScore)`. ECMAScript requires the sort to be
   * stable, and a stable sort by a total preorder has exactly one outcome
   * (StableSortUnique), so this insertion sort stands for any engine's sort.
   */
  function SortByScore(s: seq<SearchResult>): seq<SearchResult> {
    if s == [] then [] else Insert(s[0], SortByScore(s[1..]))
  }

  lemma {:induction false} InsertPermutes(x: SearchResult, t: seq<SearchResult>)
    ensures multiset(Insert(x, t)) == multiset{x} + multiset(t)
  {
    if t != [] && CompareByScore(x, t[0]) > 0 {
      InsertPermutes(x, t[1..]);
      assert t == [t[0]] + t[1..];
    }
  }

  lemma SortedCons(h: SearchResult, r: seq<SearchResult>)
    requires SortedByScore(r)
    requires forall j :: 0 <= j < |r| ==> h.score >= r[j].score
    ensures SortedByScore([h] + r)
  {
    forall i, j | 0 <= i < j < |[h] + r| ensures ([h] + r)[i].score >= ([h] + r)[j].score {
      assert ([h] + r)[j] == r[j - 1];
      if i > 0 {
        assert ([h] + r)[i] == r[i - 1];
      }
    }
  }

  lemma SortedTail(s: seq<SearchResult>)
    requires SortedByScore(s) && s != []
    ensures SortedByScore(s[1..])
    ensures forall j :: 0 <= j < |s[1..]| ==> s[0].score >= s[1..][j].score
  {
    forall i, j | 0 <= i < j < |s[1..]| ensures s[1..][i].score >= s[1..][j].score {
      assert s[1..][i] == s[i + 1] && s[1..][j] == s[j + 1];
    }
    forall j | 0 <= j < |s[1..]| ensures s[0].score >= s[1..][j].score {
      assert s[1..][j] == s[j + 1];
    }
  }

  lemma {:induction false} InsertSorted(x: SearchResult, t: seq<SearchResult>)
    requires SortedByScore(t)
    ensures SortedByScore(Insert(x, t))
  {
    if t == [] || CompareByScore(x, t[0]) <= 0 {
      if t != [] {
        SortedTail(t);
      }
      SortedCons(x, t);
    } else {
      SortedTail(t);
      InsertSorted(x, t[1..]);
      var r := Insert(x, t[1..]);
      InsertPermutes(x, t[1..]);
      forall j | 0 <= j < |r| ensures t[0].score >= r[j].score {
        assert r[j] in multiset(r);
        if r[j] != x {
          assert r[j] in multiset(t[1..]);
          var k :| 0 <= k < |t[1..]| && t[1..][k] == r[j];
        }
      }
      SortedCons(t[0], r);
    }
  }

  /** The sort yields a list ordered by non-increasing score that is a permutation of its input. */
  lemma {:induction false} SortByScoreSorted(s: seq<SearchResult>)
    ensures SortedByScore(SortByScore(s))
    ensures multiset(SortByScore(s)) == multiset(s)
    ensures |SortByScore(s)| == |s|
  {
    if s != [] {
      SortByScoreSorted(s[1..]);
      InsertSorted(s[0], SortByScore(s[1..]));
      InsertPermutes(s[0], SortByScore(s[1..]));
      assert s == [s[0]] + s[1..];
    }
    assert |multiset(SortByScore(s))| == |SortByScore(s)|;
  }

  lemma {:induction false} InsertWithScore(x: SearchResult, t: seq<SearchResult>, score: int)
    ensures WithScore(Insert(x, t), score) == (if x.score == score then [x] else []) + WithScore(t, score)
  {
    var px: seq<SearchResult> := if x.score == score then [x] else [];
    if t == [] || CompareByScore(x, t[0]) <= 0 {
      assert ([x] + t)[1..] == t;
    } else {
      InsertWithScore(x, t[1..], score);
      var r := Insert(x, t[1..]);
      var p0: seq<SearchResult> := if t[0].score == score then [t[0]] else [];
      assert ([t[0]] + r)[0] == t[0] && ([t[0]] + r)[1..] == r;
      assert WithScore([t[0]] + r, score) == p0 + (px + WithScore(t[1..], score));
      assert WithScore(t, score) == p0 + WithScore(t[1..], score);
      assert p0 == [] || px == [];
    }
  }

  /** What `results.sort(compareByScore)` promises: sorted, a permutation, each score's order kept. */
  lemma SortByScoreSpec(s: seq<SearchResult>)
    ensures SortedByScore(SortByScore(s))
    ensures multiset(SortByScore(s)) == multiset(s)
    ensures forall score :: WithScore(SortByScore(s), score) == WithScore(s, score)
  {
    SortByScoreSorted(s);
    forall score ensures WithScore(SortByScore(s), score) == WithScore(s, score) {
      SortByScoreStable(s, score);
    }
  }

  lemma SliceSnoc<T>(s: seq<T>, i: nat)
    requires i < |s|
    ensures s[..i + 1] == s[..i] + [s[i]]
  {
  }

  /** Stability: among results of equal score the input order is kept. */
  lemma {:induction false} SortByScoreStable(s: seq<SearchResult>, score: int)
    ensures WithScore(SortByScore(s), score) == WithScore(s, score)
  {
    if s != [] {
      SortByScoreStable(s[1..], score);
      InsertWithScore(s[0], SortByScore(s[1..]), score);
    }
  }

  lemma {:induction false} WithScoreCount(s: seq<SearchResult>, score: int, e: SearchResult)
    ensures multiset(WithScore(s, score))[e] == if e.score == score then multiset(s)[e] else 0
  {
    if s != [] {
      WithScoreCount(s[1..], score, e);
      assert s == [s[0]] + s[1..];
    }
  }

  /**
   * A list sorted by score is fixed by the order of each score's results: any
   * stable sort of the same input returns what SortByScore returns.
   */
  lemma {:induction false} StableSortUnique(a: seq<SearchResult>, b: seq<SearchResult>)
    requires SortedByScore(a) && SortedByScore(b)
    requires forall score :: WithScore(a, score) == WithScore(b, score)
    ensures a == b
  {
    SameLength(a, b);
    if a != [] {
      SameHead(a, b);
      SameTails(a, b);
      SortedTail(a);
      SortedTail(b);
      StableSortUnique(a[1..], b[1..]);
      assert a == [a[0]] + a[1..] && b == [b[0]] + b[1..];
    }
  }

  /** Lists with the same results of every score have the same length. */
  lemma SameLength(a: seq<SearchResult>, b: seq<SearchResult>)
    requires forall score :: WithScore(a, score) == WithScore(b, score)
    ensures |a| == |b|
  {
    assert multiset(a) == multiset(b) by {
      forall e ensures multiset(a)[e] == multiset(b)[e] {
        WithScoreCount(a, e.score, e);
        WithScoreCount(b, e.score, e);
      }
    }
    assert |a| == |multiset(a)| == |multiset(b)| == |b|;
  }

  /** Sorted lists with the same results of every score start with the same result. */
  lemma SameHead(a: seq<SearchResult>, b: seq<SearchResult>)
    requires SortedByScore(a) && SortedByScore(b) && |a| > 0 && |b| > 0
    requires forall score :: WithScore(a, score) == WithScore(b, score)
    ensures a[0] == b[0]
  {
    var x, y := a[0], b[0];
    var wx, wy := WithScore(a, x.score), WithScore(b, y.score);
    assert wx[0] == x;
    assert wx[0] in WithScore(b, x.score);
    assert wy[0] == y;
    assert wy[0] in WithScore(a, y.score);
    assert y.score >= x.score by {
      var k :| 0 <= k < |b| && b[k] == wx[0];
    }
    assert x.score >= y.score by {
      var k :| 0 <= k < |a| && a[k] == wy[0];
    }
  }

  /** Dropping the same first result keeps the results of every score equal. */
  lemma SameTails(a: seq<SearchResult>, b: seq<SearchResult>)
    requires |a| > 0 && |b| > 0 && a[0] == b[0]
    requires forall score :: WithScore(a, score) == WithScore(b, score)
    ensures forall score :: WithScore(a[1..], score) == WithScore(b[1..], score)
  {
    var x := a[0];
    forall score ensures WithScore(a[1..], score) == WithScore(b[1..], score) {
      var p: seq<SearchResult> := if x.score == score then [x] else [];
      assert WithScore(a, score) == p + WithScore(a[1..], score);
      assert WithScore(b, score) == p + WithScore(b[1..], score);
      assert (p + WithScore(a[1..], score))[|p|..] == WithScore(a[1..], score);
      assert (p + WithScore(b[1..], score))[|p|..] == WithScore(b[1..], score);
    }
  }

  /** Where each result lands depends only on the scores. */
  lemma {:induction false} InsertScores(x: SearchResult, t: seq<SearchResult>, y: SearchResult, u: seq<SearchResult>)
    requires x.score == y.score && Scores(t) == Scores(u)
    ensures Scores(Insert(x, t)) == Scores(Insert(y, u))
  {
    assert |t| == |Scores(t)| == |Scores(u)| == |u|;
    if t == [] || CompareByScore(x, t[0]) <= 0 {
      assert u == [] || CompareByScore(y, u[0]) <= 0 by {
        if u != [] {
          assert Scores(t)[0] == Scores(u)[0];
        }
      }
      assert Scores([x] + t) == [x.score] + Scores(t);
      assert Scores([y] + u) == [y.score] + Scores(u);
    } else {
      assert Scores(t)[0] == Scores(u)[0];
      assert Scores(t[1..]) == Scores(t)[1..] && Scores(u[1..]) == Scores(u)[1..];
      InsertScores(x, t[1..], y, u[1..]);
      var r, r' := Insert(x, t[1..]), Insert(y, u[1..]);
      assert Scores([t[0]] + r) == [t[0].score] + Scores(r);
      assert Scores([u[0]] + r') == [u[0].score] + Scores(r');
    }
  }

  lemma {:induction false} SortScores(a: seq<SearchResult>, b: seq<SearchResult>)
    requires Scores(a) == Scores(b)
    ensures Scores(SortByScore(a)) == Scores(SortByScore(b))
  {
    assert |a| == |Scores(a)| == |Scores(b)| == |b|;
    if a != [] {
      assert Scores(a[1..]) == Scores(a)[1..] && Scores(b[1..]) == Scores(b)[1..];
      assert Scores(a)[0] == Scores(b)[0];
      SortScores(a[1..], b[1..]);
      InsertScores(a[0], SortByScore(a[1..]), b[0], SortByScore(b[1..]));
    }
  }

  // ---------------------------------------------------------------------------
  // termSearch

  /** `[...query].map(keyGen.term)` */
  function TermKeys(b: Backend, terms: seq<Term>): seq<Key> {
    seq(|terms|, i requires 0 <= i < |terms| => b.termKey(terms[i]))
  }

  /** `termValuesMap`: the lookup of every term key among the postings. */
  function TermValues(b: Backend, terms: seq<Term>): Entries<Option<PageMap>> {
    LookupByKeys(b.postings, TermKeys(b, terms))
  }

  /** `curr == null || !curr.size` */
  predicate IsEmptyPosting(v: Option<PageMap>) {
    v.None? || |v.value| == 0
  }

  /** `vs.reduce((acc, curr) => acc || curr == null || !curr.size, false)` */
  function ContainsEmptyTerm(vs: seq<Option<PageMap>>): (r: bool)
    ensures r <==> exists i :: 0 <= i < |vs| && IsEmptyPosting(vs[i])
  {
    if vs == [] then false
    else ContainsEmptyTerm(vs[..|vs| - 1]) || IsEmptyPosting(vs[|vs| - 1])
  }

  /** The posting maps once none of them is `null`. */
  function Postings(vs: seq<Option<PageMap>>): (ps: seq<PageMap>)
    requires forall i :: 0 <= i < |vs| ==> vs[i].Some?
    ensures |ps| == |vs| && forall i :: 0 <= i < |vs| ==> vs[i] == Some(ps[i])
  {
    seq(|vs|, i requires 0 <= i < |vs| => vs[i].value)
  }

  predicate InAll(ps: seq<PageMap>, k: PageId) {
    forall i :: 0 <= i < |ps| ==> Has(ps[i], k)
  }

  /** `pageIds.filter(pageId => terms.some(termValue => !termValue.has(pageId)))` */
  function MissingInSome(pageIds: seq<PageId>, ps: seq<PageMap>): seq<PageId> {
    if pageIds == [] then []
    else (if InAll(ps, pageIds[0]) then [] else [pageIds[0]]) + MissingInSome(pageIds[1..], ps)
  }

  /** The filter lists exactly the pages that some posting map lacks. */
  lemma {:induction false} MissingInSomeFacts(pageIds: seq<PageId>, ps: seq<PageMap>)
    ensures forall k :: k in MissingInSome(pageIds, ps) <==> k in pageIds && !InAll(ps, k)
  {
    if pageIds != [] {
      MissingInSomeFacts(pageIds[1..], ps);
      assert pageIds == [pageIds[0]] + pageIds[1..];
    }
  }

  /** The keys of `within` that every posting map has. */
  function CommonKeys(ps: seq<PageMap>, within: PageMap): set<PageId> {
    set k | k in Keys(within) && InAll(ps, k)
  }

  /** `pageValuesMap` as first built: `new Map` of every posting map's entries, in lookup order. */
  function MergePostings(ps: seq<PageMap>): PageMap {
    FromEntries(Concat(ps))
  }

  /** The merged map, keeping only the pages every posting map holds. */
  function IntersectPostings(ps: seq<PageMap>): PageMap {
    Restrict(MergePostings(ps), CommonKeys(ps, MergePostings(ps)))
  }

  /**
   * termSearch: `None` (JavaScript `null`) without terms; the empty map when the lookup
   * found nothing or found a `null` or empty posting map; otherwise the merged posting
   * maps restricted to the pages every one of them holds.
   */
  ghost function TermSearchSpec(b: Backend, terms: seq<Term>): (r: Option<PageMap>)
    ensures r.None? <==> |terms| == 0
  {
    if |terms| == 0 then None
    else
      var tv := TermValues(b, terms);
      if |tv| == 0 || ContainsEmptyTerm(Values(tv)) then Some([])
      else
        Some(IntersectPostings(Postings(Values(tv))))
  }

  /** termSearch, deleting the pages some posting map lacks from the merged map in place. */
  method TermSearch(b: Backend, terms: seq<Term>) returns (r: Option<PageMap>)
    ensures r == TermSearchSpec(b, terms)
  {
    if |terms| == 0 {
      return None;
    }
    var termValues := LookupByKeys(b.postings, TermKeys(b, terms));
    var containsEmptyTerm := ContainsEmptyTerm(Values(termValues));
    if |termValues| == 0 || containsEmptyTerm {
      return Some([]);
    }
    var ps := Postings(Values(termValues));
    var pageValues := FromEntries(Concat(ps));
    ghost var merged := MergePostings(ps);
    FromEntriesIsMap(Concat(ps));
    if |termValues| > 1 {
      var differed := MissingInSome(Keys(pageValues), ps);
      pageValues := DeleteEach(pageValues, differed);
      RemovedAreUncommon(ps, merged, differed);
    } else {
      SinglePostingAllCommon(ps, merged);
    }
    return Some(pageValues);
  }

  /** Deleting each listed page from a `Map`, one `delete` after another. */
  method DeleteEach(m: PageMap, ids: seq<PageId>) returns (r: PageMap)
    requires IsMap(m)
    ensures r == Without(m, set k | k in ids)
    ensures IsMap(r) && forall k :: Has(r, k) <==> Has(m, k) && k !in ids
  {
    WithoutFacts(m, set k | k in ids);
    r := m;
    ghost var removed: set<PageId> := {};
    WithoutEmpty(m);
    var i := 0;
    while i < |ids|
      invariant 0 <= i <= |ids|
      invariant forall k :: k in removed <==> k in ids[..i]
      invariant r == Without(m, removed)
    {
      DeleteWithout(m, removed, ids[i]);
      SliceSnoc(ids, i);
      r := Delete(r, ids[i]);
      removed := removed + {ids[i]};
      i := i + 1;
    }
    assert ids[..i] == ids;
    assert removed == set k | k in ids;
  }

  /** Deleting what `MissingInSome` lists keeps the common pages. */
  lemma RemovedAreUncommon(ps: seq<PageMap>, merged: PageMap, differed: seq<PageId>)
    requires merged == MergePostings(ps) && differed == MissingInSome(Keys(merged), ps)
    ensures Without(merged, set k | k in differed) == IntersectPostings(ps)
  {
    MissingInSomeFacts(Keys(merged), ps);
    WithoutIsRestrict(merged, (set k | k in differed), CommonKeys(ps, merged));
  }

  /** With a single posting map every merged page is common. */
  lemma SinglePostingAllCommon(ps: seq<PageMap>, merged: PageMap)
    requires |ps| == 1 && merged == MergePostings(ps)
    ensures merged == IntersectPostings(ps)
  {
    FromEntriesFacts(Concat(ps));
    forall k | k in Keys(merged) ensures k in CommonKeys(ps, merged) {
      ConcatHas(ps, k);
    }
    RestrictAll(merged, CommonKeys(ps, merged));
  }

  lemma TermKeyIn(b: Backend, terms: seq<Term>, t: Term)
    requires t in terms
    ensures b.termKey(t) in TermKeys(b, terms)
  {
    var i :| 0 <= i < |terms| && terms[i] == t;
    assert TermKeys(b, terms)[i] == b.termKey(t);
  }

  /** Each entry of the lookup is the stored posting value of one of the query's terms. */
  lemma TermEntry(b: Backend, terms: seq<Term>, i: nat) returns (t: Term)
    requires i < |TermValues(b, terms)|
    ensures t in terms && b.termKey(t) in b.postings
    ensures TermValues(b, terms)[i] == (b.termKey(t), b.postings[b.termKey(t)])
  {
    var tv, ks := TermValues(b, terms), TermKeys(b, terms);
    assert tv[i] in tv;
    var j :| 0 <= j < |ks| && ks[j] == tv[i].0;
    t := terms[j];
  }

  /** Each query term whose key the store holds has its posting value among the lookup's entries. */
  lemma StoredTermIndex(b: Backend, terms: seq<Term>, t: Term) returns (i: nat)
    requires t in terms && b.termKey(t) in b.postings
    ensures i < |TermValues(b, terms)|
    ensures TermValues(b, terms)[i] == (b.termKey(t), b.postings[b.termKey(t)])
  {
    TermKeyIn(b, terms, t);
    LookupGet(b.postings, TermKeys(b, terms), b.termKey(t));
    var tv := TermValues(b, terms);
    assert (b.termKey(t), b.postings[b.termKey(t)]) in tv;
    i :| 0 <= i < |tv| && tv[i] == (b.termKey(t), b.postings[b.termKey(t)]);
  }

  /** The lookup comes back empty exactly when the store holds none of the term keys. */
  lemma NothingFound(b: Backend, terms: seq<Term>)
    ensures |TermValues(b, terms)| == 0 <==> forall t :: t in terms ==> b.termKey(t) !in b.postings
  {
    if |TermValues(b, terms)| > 0 {
      var t := TermEntry(b, terms, 0);
    }
    forall t | t in terms && b.termKey(t) in b.postings ensures |TermValues(b, terms)| > 0 {
      var i := StoredTermIndex(b, terms, t);
    }
  }

  /** The lookup holds a `null` or empty posting map exactly when the store does for some term. */
  lemma EmptyFound(b: Backend, terms: seq<Term>)
    ensures ContainsEmptyTerm(Values(TermValues(b, terms))) <==>
      exists t :: t in terms && b.termKey(t) in b.postings && IsEmptyPosting(b.postings[b.termKey(t)])
  {
    var tv := TermValues(b, terms);
    if ContainsEmptyTerm(Values(tv)) {
      var i :| 0 <= i < |Values(tv)| && IsEmptyPosting(Values(tv)[i]);
      var t := TermEntry(b, terms, i);
    }
    if exists t :: t in terms && b.termKey(t) in b.postings && IsEmptyPosting(b.postings[b.termKey(t)]) {
      var t :| t in terms && b.termKey(t) in b.postings && IsEmptyPosting(b.postings[b.termKey(t)]);
      var i := StoredTermIndex(b, terms, t);
      assert Values(tv)[i] == tv[i].1;
    }
  }

  /** The store-level reading of the early exit: no term key stored, or a `null` or empty one. */
  ghost predicate Collapses(b: Backend, terms: seq<Term>) {
    || (forall t :: t in terms ==> b.termKey(t) !in b.postings)
    || (exists t :: t in terms && b.termKey(t) in b.postings && IsEmptyPosting(b.postings[b.termKey(t)]))
  }

  /**
   * Without terms the result is `None`; with terms it is the empty map when no term key
   * is in the store or one stored posting value is `null` or empty, whatever the others hold.
   */
  lemma TermSearchEmpty(b: Backend, terms: seq<Term>)
    ensures |terms| == 0 ==> TermSearchSpec(b, terms) == None
    ensures |terms| > 0 && Collapses(b, terms) ==> TermSearchSpec(b, terms) == Some([])
  {
    NothingFound(b, terms);
    EmptyFound(b, terms);
  }

  /** The posting maps of a search that does not collapse, and what the lookup says of them. */
  lemma LivePostings(b: Backend, terms: seq<Term>)
    requires |terms| > 0 && !Collapses(b, terms)
    ensures |TermValues(b, terms)| > 0 && !ContainsEmptyTerm(Values(TermValues(b, terms)))
    ensures var ps := Postings(Values(TermValues(b, terms)));
      TermSearchSpec(b, terms) == Some(IntersectPostings(ps))
  {
    NothingFound(b, terms);
    EmptyFound(b, terms);
  }

  lemma PostingAt(b: Backend, terms: seq<Term>, i: nat) returns (t: Term)
    requires |terms| > 0 && !Collapses(b, terms)
    requires i < |TermValues(b, terms)|
    ensures !ContainsEmptyTerm(Values(TermValues(b, terms)))
    ensures t in terms && b.termKey(t) in b.postings && b.postings[b.termKey(t)].Some?
    ensures Postings(Values(TermValues(b, terms)))[i] == b.postings[b.termKey(t)].value
  {
    LivePostings(b, terms);
    t := TermEntry(b, terms, i);
    assert Values(TermValues(b, terms))[i] == TermValues(b, terms)[i].1;
  }

  lemma MergedHas(ps: seq<PageMap>, p: PageId)
    ensures Has(FromEntries(Concat(ps)), p) <==> exists i :: 0 <= i < |ps| && Has(ps[i], p)
  {
    FromEntriesFacts(Concat(ps));
    ConcatHas(ps, p);
  }

  /**
   * The AND law: when the search does not collapse, a page is in the result exactly when
   * it is in the posting map of every query term whose key the store holds.
   */
  lemma TermSearchAnd(b: Backend, terms: seq<Term>, p: PageId)
    requires |terms| > 0 && !Collapses(b, terms)
    ensures TermSearchSpec(b, terms).Some?
    ensures Has(TermSearchSpec(b, terms).value, p) <==>
      forall t :: t in terms && b.termKey(t) in b.postings ==> Has(b.postings[b.termKey(t)].value, p)
  {
    LivePostings(b, terms);
    var ps := Postings(Values(TermValues(b, terms)));
    var merged := FromEntries(Concat(ps));
    MergedHas(ps, p);
    RestrictFacts(merged, CommonKeys(ps, merged));
    if forall t :: t in terms && b.termKey(t) in b.postings ==> Has(b.postings[b.termKey(t)].value, p) {
      forall i | 0 <= i < |ps| ensures Has(ps[i], p) {
        var t := PostingAt(b, terms, i);
      }
      assert Has(ps[0], p);
    }
    if InAll(ps, p) {
      forall t | t in terms && b.termKey(t) in b.postings ensures Has(b.postings[b.termKey(t)].value, p) {
        var i := StoredTermIndex(b, terms, t);
        var t' := PostingAt(b, terms, i);
        assert Has(ps[i], p);
      }
    }
  }

  /** A term the store has no key for is passed over: it does not collapse the search. */
  lemma TermSearchSkipsUnknownTerm(b: Backend, terms: seq<Term>, t: Term)
    requires |terms| > 0 && b.termKey(t) !in b.postings
    ensures TermSearchSpec(b, terms + [t]) == TermSearchSpec(b, terms)
  {
    assert TermKeys(b, terms + [t]) == TermKeys(b, terms) + [b.termKey(t)];
    assert (TermKeys(b, terms) + [b.termKey(t)])[..|TermKeys(b, terms)|] == TermKeys(b, terms);
    assert Found(b.postings, TermKeys(b, terms + [t])) == Found(b.postings, TermKeys(b, terms));
  }

  /** With one term the result is that term's posting map, unchanged. */
  lemma TermSearchSingle(b: Backend, t: Term)
    requires WellFormed(b)
    requires b.termKey(t) in b.postings && !IsEmptyPosting(b.postings[b.termKey(t)])
    ensures TermSearchSpec(b, [t]) == b.postings[b.termKey(t)]
  {
    var pm := b.postings[b.termKey(t)].value;
    assert TermKeys(b, [t]) == [b.termKey(t)];
    LookupInOrder(b.postings, [b.termKey(t)]);
    assert Found(b.postings, [b.termKey(t)]) == [] + [(b.termKey(t), Some(pm))];
    var tv := TermValues(b, [t]);
    assert Values(tv) == [Some(pm)];
    assert Postings(Values(tv)) == [pm];
    assert Concat([pm]) == pm + [];
    assert pm + [] == pm;
    FromEntriesOfMap(pm);
    RestrictAll(pm, CommonKeys([pm], pm));
  }

  /** Each surviving page keeps its record from the last posting map of the lookup. */
  lemma TermSearchValues(b: Backend, terms: seq<Term>, p: PageId)
    requires WellFormed(b)
    requires |terms| > 0 && !Collapses(b, terms)
    requires TermSearchSpec(b, terms).Some? && Has(TermSearchSpec(b, terms).value, p)
    ensures |TermValues(b, terms)| > 0 && !ContainsEmptyTerm(Values(TermValues(b, terms)))
    ensures var ps := Postings(Values(TermValues(b, terms)));
      Get(TermSearchSpec(b, terms).value, p) == Get(ps[|ps| - 1], p)
  {
    LivePostings(b, terms);
    var ps := Postings(Values(TermValues(b, terms)));
    var t := PostingAt(b, terms, |ps| - 1);
    IntersectGet(ps, p);
  }

  /** A page of the intersection carries the record of the last posting map. */
  lemma IntersectGet(ps: seq<PageMap>, p: PageId)
    requires |ps| > 0 && IsMap(ps[|ps| - 1]) && Has(IntersectPostings(ps), p)
    ensures Get(IntersectPostings(ps), p) == Get(ps[|ps| - 1], p)
  {
    var merged := MergePostings(ps);
    var s := CommonKeys(ps, merged);
    assert p in s && Get(IntersectPostings(ps), p) == Get(merged, p) by {
      RestrictFacts(merged, s);
    }
    MergedGetLast(ps, p);
  }

  /** A page of the last posting map has that map's record in the merged map. */
  lemma MergedGetLast(ps: seq<PageMap>, p: PageId)
    requires |ps| > 0 && IsMap(ps[|ps| - 1]) && Has(ps[|ps| - 1], p)
    ensures Get(MergePostings(ps), p) == Get(ps[|ps| - 1], p)
  {
    FromEntriesFacts(Concat(ps));
    LastValueConcat(ps, |ps| - 1, p);
  }

  /** The result lists its pages in the order of the first posting map of the lookup. */
  lemma TermSearchOrder(b: Backend, terms: seq<Term>)
    requires WellFormed(b)
    requires |terms| > 0 && !Collapses(b, terms)
    ensures |TermValues(b, terms)| > 0 && !ContainsEmptyTerm(Values(TermValues(b, terms)))
    ensures var ps := Postings(Values(TermValues(b, terms)));
      Keys(TermSearchSpec(b, terms).value) == Keys(Restrict(ps[0], CommonKeys(ps, ps[0])))
  {
    LivePostings(b, terms);
    var ps := Postings(Values(TermValues(b, terms)));
    var t := PostingAt(b, terms, 0);
    MergedOrder(ps);
  }

  /** The merged map is the first posting map with the later ones written over it. */
  lemma MergedFromFirst(ps: seq<PageMap>)
    requires |ps| > 0 && IsMap(ps[0])
    ensures MergePostings(ps) == FromEntriesInto(ps[0], Concat(ps[1..]))
  {
    var rest := Concat(ps[1..]);
    assert Concat(ps) == ps[0] + rest;
    FromEntriesIntoAppend([], ps[0], rest);
    FromEntriesOfMap(ps[0]);
  }

  /** The pages common to all posting maps are those of the first map found in every map. */
  lemma CommonOfMerged(ps: seq<PageMap>)
    requires |ps| > 0
    ensures CommonKeys(ps, MergePostings(ps)) == CommonKeys(ps, ps[0])
  {
    forall k | k in CommonKeys(ps, ps[0]) ensures k in CommonKeys(ps, MergePostings(ps)) {
      MergedHas(ps, k);
    }
  }

  /** Restricting a map to keys of its prefix is restricting the prefix. */
  lemma RestrictToPrefix(m: PageMap, n: nat, s: set<PageId>)
    requires IsMap(m) && n <= |m|
    requires forall k :: k in s ==> Has(m[..n], k)
    ensures Restrict(m, s) == Restrict(m[..n], s)
  {
    assert m == m[..n] + m[n..];
    RestrictAppend(m[..n], m[n..], s);
    forall k | Has(m[n..], k) ensures k !in s {
      if k in s {
        SuffixFresh(m, n, k);
      }
    }
    RestrictNone(m[n..], s);
    assert Restrict(m, s) == Restrict(m[..n], s) + [];
  }

  lemma MergedOrder(ps: seq<PageMap>)
    requires |ps| > 0 && IsMap(ps[0])
    ensures Keys(IntersectPostings(ps)) == Keys(Restrict(ps[0], CommonKeys(ps, ps[0])))
  {
    var merged := MergePostings(ps);
    MergedFromFirst(ps);
    FromEntriesIntoKeys(ps[0], Concat(ps[1..]));
    PrefixKeys(merged, ps[0]);
    CommonOfMerged(ps);
    var n := |ps[0]|;
    var s := CommonKeys(ps, ps[0]);
    FromEntriesIsMap(Concat(ps));
    RestrictToPrefix(merged, n, s);
    RestrictKeys(merged[..n], ps[0], s);
  }

  // ---------------------------------------------------------------------------
  // filterSearch

  /** `data`: what `rangeLookup` returns for each time range, in the filter's order. */
  function RangeData(b: Backend, timeFilter: seq<TimeRange>): seq<Entries<PageMap>> {
    seq(|timeFilter|, i requires 0 <= i < |timeFilter| => b.rangeLookup(timeFilter[i]))
  }

  function Max(a: int, b: int): int {
    if a < b then b else a
  }

  /**
   * A page's record after a hit in a bucket of time `time`: `latest` becomes the later of
   * the two, and becomes `time` when it was missing or `0` (both falsy in JavaScript).
   */
  function StampProps(props: Props, time: int): (r: Props)
    ensures r.rest == props.rest && r.latest.Some? && r.latest.value >= time
    ensures props.latest.None? || props.latest.value == 0 ==> r.latest == Some(time)
    ensures props.latest.Some? && props.latest.value != 0 ==> r.latest == Some(Max(props.latest.value, time))
  {
    if props.latest.None? || props.latest.value == 0 || props.latest.value < time then Props(Some(time), props.rest)
    else props
  }

  /** A bucket's page map once every page in it has been stamped. */
  function Stamp(pageMap: PageMap, time: int): PageMap {
    seq(|pageMap|, i requires 0 <= i < |pageMap| => (pageMap[i].0, StampProps(pageMap[i].1, time)))
  }

  /** Every bucket of `unioned`, stamped with the time its key stands for. */
  function StampedBuckets(unioned: Entries<PageMap>, decodeTime: BucketKey -> int): seq<PageMap> {
    seq(|unioned|, j requires 0 <= j < |unioned| => Stamp(unioned[j].1, decodeTime(unioned[j].0)))
  }

  /** `unionedResults`: the buckets of every range, a repeated bucket key keeping its last page map. */
  function Unioned(b: Backend, timeFilter: seq<TimeRange>): Entries<PageMap> {
    FromEntries(Concat(RangeData(b, timeFilter)))
  }

  /**
   * filterSearch: `None` (JavaScript `null`) without time ranges; otherwise the pages of
   * every bucket of the union, stamped, a page in several buckets keeping the last one.
   */
  ghost function FilterSearchSpec(b: Backend, timeFilter: seq<TimeRange>): (r: Option<PageMap>)
    ensures r.None? <==> |timeFilter| == 0
  {
    if |timeFilter| == 0 then None
    else Some(FromEntries(Concat(StampedBuckets(Unioned(b, timeFilter), b.decodeTime))))
  }

  /** filterSearch, stamping each bucket's page map in place before appending it. */
  method FilterSearch(b: Backend, timeFilter: seq<TimeRange>) returns (r: Option<PageMap>)
    requires WellFormed(b)
    ensures r == FilterSearchSpec(b, timeFilter)
  {
    if |timeFilter| == 0 {
      return None;
    }
    var data: seq<Entries<PageMap>> := [];
    var i := 0;
    while i < |timeFilter|
      invariant 0 <= i <= |timeFilter|
      invariant data == RangeData(b, timeFilter[..i])
    {
      data := data + [b.rangeLookup(timeFilter[i])];
      i := i + 1;
    }
    assert timeFilter[..i] == timeFilter;
    var unioned := FromEntries(Concat(data));
    UnionedBucketsAreMaps(b, timeFilter);
    var acc: PageMap := [];
    var j := 0;
    while j < |unioned|
      invariant 0 <= j <= |unioned|
      invariant acc == Concat(StampedBuckets(unioned[..j], b.decodeTime))
    {
      var timeKey := unioned[j].0;
      var pageMap := unioned[j].1;
      var time := b.decodeTime(timeKey);
      pageMap := StampBucket(pageMap, time);
      StampedStep(unioned, j, b.decodeTime);
      acc := acc + pageMap;
      j := j + 1;
    }
    assert unioned[..j] == unioned;
    return Some(FromEntries(acc));
  }

  /** The inner loop of filterSearch: `pageMap.set` on each page whose `latest` is earlier than `time`. */
  method StampBucket(pageMap: PageMap, time: int) returns (r: PageMap)
    requires IsMap(pageMap)
    ensures r == Stamp(pageMap, time)
  {
    r := pageMap;
    var k := 0;
    while k < |r|
      invariant 0 <= k <= |pageMap| == |r|
      invariant r == Stamp(pageMap[..k], time) + pageMap[k..]
    {
      StampKeysKept(pageMap, k, time);
      StampAdvance(pageMap, k, time);
      var pageId := r[k].0;
      var props := r[k].1;
      if props.latest.None? || props.latest.value == 0 || props.latest.value < time {
        SetEntryAt(r, k, Props(Some(time), props.rest));
        r := SetEntry(r, pageId, Props(Some(time), props.rest));
      } else {
        assert r[k := (pageId, props)] == r;
      }
      k := k + 1;
    }
    assert pageMap[k..] == [];
    assert pageMap[..k] == pageMap;
  }

  /** Every bucket of the union is a `Map`. */
  lemma UnionedBucketsAreMaps(b: Backend, timeFilter: seq<TimeRange>)
    requires WellFormed(b)
    ensures IsMap(Unioned(b, timeFilter))
    ensures forall j :: 0 <= j < |Unioned(b, timeFilter)| ==> IsMap(Unioned(b, timeFilter)[j].1)
  {
    var data := RangeData(b, timeFilter);
    FromEntriesFacts(Concat(data));
    ConcatEntries(data);
    forall j | 0 <= j < |Unioned(b, timeFilter)| ensures IsMap(Unioned(b, timeFilter)[j].1) {
      var e := Unioned(b, timeFilter)[j];
      assert e in Unioned(b, timeFilter);
      var i :| 0 <= i < |data| && e in data[i];
      var l :| 0 <= l < |data[i]| && data[i][l] == e;
      assert data[i] == b.rangeLookup(timeFilter[i]);
    }
  }

  /** One step of the stamping loop: stamping the page at `k` of the partly stamped map. */
  lemma StampAdvance(original: PageMap, k: nat, time: int)
    requires k < |original|
    ensures var pageMap := Stamp(original[..k], time) + original[k..];
      Stamp(original[..k + 1], time) + original[k + 1..] ==
        pageMap[k := (original[k].0, StampProps(original[k].1, time))]
  {
    var pageMap := Stamp(original[..k], time) + original[k..];
    var v := StampProps(original[k].1, time);
    var next := Stamp(original[..k + 1], time) + original[k + 1..];
    forall i | 0 <= i < |next| ensures next[i] == pageMap[k := (original[k].0, v)][i] {
      if i < k {
        assert next[i] == Stamp(original[..k + 1], time)[i];
        assert pageMap[i] == Stamp(original[..k], time)[i];
      } else if i == k {
        assert next[i] == Stamp(original[..k + 1], time)[k];
      } else {
        assert next[i] == original[k + 1..][i - k - 1];
        assert pageMap[i] == original[k..][i - k];
      }
    }
  }

  /** The partly stamped map has the original's keys, and the page at `k` is untouched. */
  lemma StampKeysKept(original: PageMap, k: nat, time: int)
    requires IsMap(original) && k < |original|
    ensures var pageMap := Stamp(original[..k], time) + original[k..];
      IsMap(pageMap) && pageMap[k] == original[k]
  {
    var pageMap := Stamp(original[..k], time) + original[k..];
    forall i | 0 <= i < |original| ensures pageMap[i].0 == original[i].0 {
      if i < k {
        assert pageMap[i] == Stamp(original[..k], time)[i];
      } else {
        assert pageMap[i] == original[k..][i - k];
      }
    }
    assert pageMap[k] == original[k..][0];
  }

  lemma StampedStep(unioned: Entries<PageMap>, j: nat, decodeTime: BucketKey -> int)
    requires j < |unioned|
    ensures Concat(StampedBuckets(unioned[..j + 1], decodeTime)) ==
      Concat(StampedBuckets(unioned[..j], decodeTime)) + Stamp(unioned[j].1, decodeTime(unioned[j].0))
  {
    var last := Stamp(unioned[j].1, decodeTime(unioned[j].0));
    assert StampedBuckets(unioned[..j + 1], decodeTime) == StampedBuckets(unioned[..j], decodeTime) + [last];
    ConcatAppend(StampedBuckets(unioned[..j], decodeTime), [last]);
    assert Concat([last]) == last + [];
  }

  /** Stamping keeps the pages and their order. */
  lemma StampKeys(pageMap: PageMap, time: int)
    ensures Keys(Stamp(pageMap, time)) == Keys(pageMap)
  {
    assert forall i :: 0 <= i < |pageMap| ==> Keys(Stamp(pageMap, time))[i] == Keys(pageMap)[i];
  }

  /** Stamping keeps the map property. */
  lemma StampIsMap(pageMap: PageMap, time: int)
    requires IsMap(pageMap)
    ensures IsMap(Stamp(pageMap, time))
  {
    StampKeys(pageMap, time);
  }

  /** Stamping stamps the record of each page and adds none. */
  lemma StampGet(pageMap: PageMap, time: int, p: PageId)
    requires IsMap(pageMap)
    ensures Get(Stamp(pageMap, time), p) ==
      if Has(pageMap, p) then Some(StampProps(Get(pageMap, p).value, time)) else None
  {
    var st := Stamp(pageMap, time);
    StampKeys(pageMap, time);
    StampIsMap(pageMap, time);
    if Has(pageMap, p) {
      var i :| 0 <= i < |pageMap| && Keys(pageMap)[i] == p;
      GetAt(pageMap, i);
      GetAt(st, i);
    }
  }

  /** A page is in the result exactly when some bucket of the union holds it. */
  lemma FilterSearchPages(b: Backend, timeFilter: seq<TimeRange>, p: PageId)
    requires |timeFilter| > 0
    ensures var u := Unioned(b, timeFilter);
      Has(FilterSearchSpec(b, timeFilter).value, p) <==> exists j :: 0 <= j < |u| && Has(u[j].1, p)
  {
    var u := Unioned(b, timeFilter);
    var st := StampedBuckets(u, b.decodeTime);
    FromEntriesFacts(Concat(st));
    ConcatHas(st, p);
    forall j | 0 <= j < |u| ensures Has(st[j], p) <==> Has(u[j].1, p) {
      StampKeys(u[j].1, b.decodeTime(u[j].0));
    }
  }

  /** A bucket key takes its page map from the last time range whose lookup returned it. */
  lemma UnionedBucket(b: Backend, timeFilter: seq<TimeRange>, i: nat, k: BucketKey)
    requires WellFormed(b)
    requires i < |timeFilter| && Has(b.rangeLookup(timeFilter[i]), k)
    requires forall i' :: i < i' < |timeFilter| ==> !Has(b.rangeLookup(timeFilter[i']), k)
    ensures Get(Unioned(b, timeFilter), k) == Get(b.rangeLookup(timeFilter[i]), k)
  {
    var data := RangeData(b, timeFilter);
    FromEntriesFacts(Concat(data));
    LastValueConcat(data, i, k);
  }

  /**
   * A page keeps the record of the LAST bucket of the union that holds it, stamped with
   * that bucket's time: its `latest` is at least that time, and its other fields are kept.
   */
  lemma FilterSearchRecord(b: Backend, timeFilter: seq<TimeRange>, p: PageId, j: nat)
    requires WellFormed(b) && |timeFilter| > 0
    requires j < |Unioned(b, timeFilter)| && Has(Unioned(b, timeFilter)[j].1, p)
    requires forall j' :: j < j' < |Unioned(b, timeFilter)| ==> !Has(Unioned(b, timeFilter)[j'].1, p)
    ensures var bucket := Unioned(b, timeFilter)[j];
      Get(FilterSearchSpec(b, timeFilter).value, p) == Some(StampProps(Get(bucket.1, p).value, b.decodeTime(bucket.0)))
  {
    var u := Unioned(b, timeFilter);
    var st := StampedBuckets(u, b.decodeTime);
    UnionedBucketsAreMaps(b, timeFilter);
    FromEntriesFacts(Concat(st));
    StampIsMap(u[j].1, b.decodeTime(u[j].0));
    StampGet(u[j].1, b.decodeTime(u[j].0), p);
    forall j' | j < j' < |u| ensures !Has(st[j'], p) {
      StampKeys(u[j'].1, b.decodeTime(u[j'].0));
    }
    LastValueConcat(st, j, p);
  }

  /** The last bucket at or after `i` that holds `p`. */
  lemma LastHolder(u: Entries<PageMap>, i: nat, p: PageId) returns (j: nat)
    requires i < |u| && Has(u[i].1, p)
    ensures i <= j < |u| && Has(u[j].1, p)
    ensures forall j' :: j < j' < |u| ==> !Has(u[j'].1, p)
    decreases |u| - i
  {
    if exists j' :: i < j' < |u| && Has(u[j'].1, p) {
      var j' :| i < j' < |u| && Has(u[j'].1, p);
      j := LastHolder(u, j', p);
    } else {
      j := i;
    }
  }

  /**
   * When the union lists its buckets in ascending time, a page's `latest` is at least the
   * time of every bucket that holds it: the stamp is the latest of all hits.
   */
  lemma FilterSearchLatestAscending(b: Backend, timeFilter: seq<TimeRange>, p: PageId, i: nat)
    requires WellFormed(b) && |timeFilter| > 0
    requires var u := Unioned(b, timeFilter);
      forall j, j' :: 0 <= j < j' < |u| ==> b.decodeTime(u[j].0) <= b.decodeTime(u[j'].0)
    requires i < |Unioned(b, timeFilter)| && Has(Unioned(b, timeFilter)[i].1, p)
    ensures var r := Get(FilterSearchSpec(b, timeFilter).value, p);
      r.Some? && r.value.latest.Some? && r.value.latest.value >= b.decodeTime(Unioned(b, timeFilter)[i].0)
  {
    var u := Unioned(b, timeFilter);
    var j := LastHolder(u, i, p);
    FilterSearchRecord(b, timeFilter, p, j);
  }

  /**
   * Buckets in descending time: a page hit at time 300 and then at time 100 ends with
   * `latest` 100, not the latest of its hits.
   */
  lemma FilterSearchKeepsLastBucket()
    ensures var page := ("p", Props(None, []));
      var b := Backend(t => t, map[], tr => [("300", [page]), ("100", [page])],
                       k => if k == "300" then 300 else 100, map[]);
      FilterSearchSpec(b, [TimeRange(0, 1)]) == Some([("p", Props(Some(100), []))])
  {
    var page := ("p", Props(None, []));
    var b := Backend(t => t, map[], tr => [("300", [page]), ("100", [page])],
                     k => if k == "300" then 300 else 100, map[]);
    var buckets := [("300", [page]), ("100", [page])];
    assert RangeData(b, [TimeRange(0, 1)]) == [buckets];
    assert Concat([buckets]) == buckets + [];
    assert buckets + [] == buckets;
    assert IsMap(buckets);
    FromEntriesOfMap(buckets);
    var s300, s100 := [("p", Props(Some(300), []))], [("p", Props(Some(100), []))];
    assert Stamp([page], 300) == s300;
    assert Stamp([page], 100) == s100;
    assert StampedBuckets(buckets, b.decodeTime) == [s300, s100];
    assert Concat([s300, s100]) == s300 + s100 + [] by {
      assert [s300, s100][1..] == [s100];
      assert Concat([s100]) == s100 + [];
    }
    assert s300 + s100 + [] == [s300[0], s100[0]];
    assert FromEntriesInto([], [s300[0], s100[0]]) == FromEntriesInto(s300, [s100[0]]);
    assert FromEntriesInto(s300, [s100[0]]) == FromEntriesInto(s100, []);
  }

  /** Every record filterSearch returns carries a `latest` stamp. */
  lemma FilterSearchScored(b: Backend, timeFilter: seq<TimeRange>)
    requires |timeFilter| > 0
    ensures Scored(FilterSearchSpec(b, timeFilter).value)
  {
    var st := StampedBuckets(Unioned(b, timeFilter), b.decodeTime);
    FromEntriesFacts(Concat(st));
    ConcatEntries(st);
    forall e | e in FromEntries(Concat(st)) ensures e.1.latest.Some? {
      var j :| 0 <= j < |st| && e in st[j];
      var i :| 0 <= i < |st[j]| && st[j][i] == e;
      var u := Unioned(b, timeFilter);
      assert st[j] == Stamp(u[j].1, b.decodeTime(u[j].0));
      assert e.1 == StampProps(u[j].1[i].1, b.decodeTime(u[j].0));
    }
  }

  lemma FilterSearchIsMap(b: Backend, timeFilter: seq<TimeRange>)
    requires |timeFilter| > 0
    ensures IsMap(FilterSearchSpec(b, timeFilter).value)
  {
    FromEntriesFacts(Concat(StampedBuckets(Unioned(b, timeFilter), b.decodeTime)));
  }


  // ---------------------------------------------------------------------------
  // intersectResultMaps

  /**
   * intersectResultMaps: a missing side (`null`: that search did not run) leaves the other
   * side as it is; otherwise the filter side's entries whose page the term side holds.
   */
  function IntersectResultMaps(termPages: Option<PageMap>, filterPages: Option<PageMap>): (r: Option<PageMap>)
    ensures filterPages.None? ==> r == termPages
    ensures termPages.None? ==> r == filterPages
    ensures r.None? <==> termPages.None? && filterPages.None?
  {
    if filterPages.None? then termPages
    else if termPages.None? then filterPages
    else Some(FromEntries(Restrict(filterPages.value, KeySet(termPages.value))))
  }

  /**
   * With both sides present, the result holds exactly the pages of both, with the filter
   * side's records, in the filter side's order.
   */
  lemma IntersectBoth(termPages: PageMap, filterPages: PageMap)
    requires IsMap(filterPages)
    ensures var r := IntersectResultMaps(Some(termPages), Some(filterPages)).value;
      && r == Restrict(filterPages, KeySet(termPages))
      && IsMap(r)
      && (forall p :: Has(r, p) <==> Has(termPages, p) && Has(filterPages, p))
      && (forall p :: Get(r, p) == if Has(termPages, p) then Get(filterPages, p) else None)
  {
    RestrictFacts(filterPages, KeySet(termPages));
    FromEntriesOfMap(Restrict(filterPages, KeySet(termPages)));
  }

  /**
   * The result's records come from one side: from the filter side when it is present, so
   * only that side needs scoring then; from the term side otherwise.
   */
  lemma IntersectScored(termPages: Option<PageMap>, filterPages: Option<PageMap>)
    requires filterPages.Some? ==> Scored(filterPages.value)
    requires filterPages.None? && termPages.Some? ==> Scored(termPages.value)
    ensures var r := IntersectResultMaps(termPages, filterPages);
      r.Some? ==> Scored(r.value)
  {
    if termPages.Some? && filterPages.Some? {
      var f := Restrict(filterPages.value, KeySet(termPages.value));
      RestrictFacts(filterPages.value, KeySet(termPages.value));
      FromEntriesFacts(f);
    }
  }

  // ---------------------------------------------------------------------------
  // formatIdResults and resolveIdResults

  /** Every record of the map has a `latest` score. */
  ghost predicate Scored(m: PageMap) {
    forall e :: e in m ==> e.1.latest.Some?
  }

  /** One id-only result per page, in the map's order, scored by its `latest`. */
  function IdResults(m: PageMap): (rs: seq<SearchResult>)
    requires Scored(m)
    ensures |rs| == |m|
  {
    seq(|m|, i requires 0 <= i < |m| => assert m[i] in m; StructureSearchResult(IdOnly(m[i].0), m[i].1.latest.value))
  }

  /** formatIdResults: the id-only results, stably sorted by descending score. */
  method FormatIdResults(m: PageMap) returns (results: seq<SearchResult>)
    requires Scored(m)
    ensures SortedByScore(results)
    ensures multiset(results) == multiset(IdResults(m))
    ensures forall score :: WithScore(results, score) == WithScore(IdResults(m), score)
  {
    var rs: seq<SearchResult> := [];
    var i := 0;
    while i < |m|
      invariant 0 <= i <= |m|
      invariant rs == IdResults(m)[..i]
    {
      var pageId := m[i].0;
      var value := m[i].1;
      assert m[i] in m;
      rs := rs + [StructureSearchResult(IdOnly(pageId), value.latest.value)];
      i := i + 1;
    }
    assert rs == IdResults(m);
    results := SortByScore(rs);
    SortByScoreSpec(rs);
  }

  /** The pages that have a stored document, looked up: `(pageId, document)`, in the map's order. */
  function DocEntries(docs: map<PageId, Fields>, kept: PageMap): (r: Entries<Fields>)
    requires forall i :: 0 <= i < |kept| ==> kept[i].0 in docs
    ensures |r| == |kept|
  {
    seq(|kept|, i requires 0 <= i < |kept| => (kept[i].0, docs[kept[i].0]))
  }

  /**
   * One result per page that has a stored document, in the map's order: the document,
   * scored by the page's `latest`. Pages without a document are dropped.
   */
  function ResolvedResults(docs: map<PageId, Fields>, m: PageMap): (rs: seq<SearchResult>)
    requires Scored(m)
    ensures |rs| == |Restrict(m, docs.Keys)|
  {
    var kept := Restrict(m, docs.Keys);
    RestrictFacts(m, docs.Keys);
    seq(|kept|, i requires 0 <= i < |kept| =>
      assert kept[i] in kept && Has(kept, kept[i].0);
      StructureSearchResult(Document(docs[kept[i].0]), kept[i].1.latest.value))
  }

  lemma RestrictedInDocs(docs: map<PageId, Fields>, m: PageMap)
    ensures forall i :: 0 <= i < |Restrict(m, docs.Keys)| ==> Restrict(m, docs.Keys)[i].0 in docs
  {
    RestrictFacts(m, docs.Keys);
    assert forall i :: 0 <= i < |Restrict(m, docs.Keys)| ==> Has(Restrict(m, docs.Keys), Restrict(m, docs.Keys)[i].0);
  }

  lemma DocEntriesAppend(docs: map<PageId, Fields>, a: PageMap, t: PageMap)
    requires forall i :: 0 <= i < |a| ==> a[i].0 in docs
    requires forall i :: 0 <= i < |t| ==> t[i].0 in docs
    ensures forall i :: 0 <= i < |a + t| ==> (a + t)[i].0 in docs
    ensures DocEntries(docs, a + t) == DocEntries(docs, a) + DocEntries(docs, t)
  {
  }

  /** Looking a map's pages up among the documents finds those that have one, in the map's order. */
  lemma {:induction false} FoundIsDocEntries(docs: map<PageId, Fields>, m: PageMap)
    ensures forall i :: 0 <= i < |Restrict(m, docs.Keys)| ==> Restrict(m, docs.Keys)[i].0 in docs
    ensures Found(docs, Keys(m)) == DocEntries(docs, Restrict(m, docs.Keys))
    decreases |m|
  {
    RestrictedInDocs(docs, m);
    if m != [] {
      var init, last := m[..|m| - 1], m[|m| - 1];
      assert m == init + [last];
      KeysAppend(init, [last]);
      assert Keys(m)[..|m| - 1] == Keys(init);
      RestrictAppend(init, [last], docs.Keys);
      RestrictedInDocs(docs, init);
      RestrictedInDocs(docs, [last]);
      FoundIsDocEntries(docs, init);
      assert [last][1..] == [];
      DocEntriesAppend(docs, Restrict(init, docs.Keys), Restrict([last], docs.Keys));
    }
  }

  /** resolveIdResults: each page's stored document, scored by its `latest`, stably sorted by descending score. */
  method ResolveIdResults(docs: map<PageId, Fields>, m: PageMap) returns (results: seq<SearchResult>)
    requires IsMap(m) && Scored(m)
    ensures SortedByScore(results)
    ensures multiset(results) == multiset(ResolvedResults(docs, m))
    ensures forall score :: WithScore(results, score) == WithScore(ResolvedResults(docs, m), score)
  {
    var pageValues := LookupByKeys(docs, Keys(m));
    ResolveLength(docs, m);
    ghost var resolved := ResolvedResults(docs, m);
    var rs: seq<SearchResult> := [];
    var i := 0;
    while i < |pageValues|
      invariant 0 <= i <= |pageValues| == |resolved|
      invariant rs == resolved[..i]
    {
      ResolveAt(docs, m, i);
      var pageId := pageValues[i].0;
      var props := pageValues[i].1;
      var latest := Get(m, pageId).value.latest;
      SliceSnoc(resolved, i);
      rs := rs + [StructureSearchResult(Document(props), latest.value)];
      i := i + 1;
    }
    assert rs == resolved[..|resolved|] == resolved;
    results := SortByScore(rs);
    SortByScoreSpec(rs);
  }

  /** The lookup inside resolveIdResults finds one entry per page that has a document. */
  lemma ResolveLength(docs: map<PageId, Fields>, m: PageMap)
    requires IsMap(m)
    ensures |LookupByKeys(docs, Keys(m))| == |Restrict(m, docs.Keys)|
  {
    assert Distinct(Keys(m));
    LookupInOrder(docs, Keys(m));
    FoundIsDocEntries(docs, m);
  }

  /** The `i`-th entry of that lookup, against the map it came from and the result it yields. */
  lemma ResolveAt(docs: map<PageId, Fields>, m: PageMap, i: nat)
    requires IsMap(m) && Scored(m) && i < |Restrict(m, docs.Keys)|
    ensures |LookupByKeys(docs, Keys(m))| == |Restrict(m, docs.Keys)|
    ensures var e := Restrict(m, docs.Keys)[i];
      && e.0 in docs && LookupByKeys(docs, Keys(m))[i] == (e.0, docs[e.0])
      && Get(m, e.0) == Some(e.1) && e.1.latest.Some?
      && ResolvedResults(docs, m)[i] == SearchResult(Document(docs[e.0]), e.1.latest.value)
  {
    assert Distinct(Keys(m));
    LookupInOrder(docs, Keys(m));
    FoundIsDocEntries(docs, m);
    var e := Restrict(m, docs.Keys)[i];
    RestrictFacts(m, docs.Keys);
    assert e in Restrict(m, docs.Keys);
    GetMember(m, e);
  }

  /** Ranking neither adds nor drops a result. */
  lemma SortByScoreMembers(s: seq<SearchResult>)
    ensures forall r :: r in SortByScore(s) <==> r in s
  {
    SortByScoreSorted(s);
    assert forall r :: r in SortByScore(s) <==> r in multiset(SortByScore(s));
    assert forall r :: r in s <==> r in multiset(s);
  }

  /** The id-only results: one per page of the map, each scored by that page's `latest`. */
  lemma IdResultsPages(m: PageMap, p: PageId)
    requires Scored(m) && IsMap(m)
    ensures (exists r :: r in SortByScore(IdResults(m)) && r.fields == IdOnly(p)) <==> Has(m, p)
    ensures forall r :: r in SortByScore(IdResults(m)) && r.fields == IdOnly(p) ==>
      Get(m, p).Some? && r.score == Get(m, p).value.latest.value
  {
    var rs := IdResults(m);
    SortByScoreMembers(rs);
    forall r | r in rs && r.fields == IdOnly(p) ensures Get(m, p).Some? && r.score == Get(m, p).value.latest.value {
      var i :| 0 <= i < |rs| && rs[i] == r;
      GetAt(m, i);
    }
    if Has(m, p) {
      var i :| 0 <= i < |m| && Keys(m)[i] == p;
      assert rs[i] in rs;
    }
  }

  /**
   * The full-document results drop the pages that have no stored document: there is one
   * per page exactly when every page has one, and then they are scored as the id-only
   * results are, so both rankings list the same scores in the same order.
   */
  lemma ResolvedCount(docs: map<PageId, Fields>, m: PageMap)
    requires IsMap(m) && Scored(m)
    ensures |ResolvedResults(docs, m)| <= |m|
    ensures |ResolvedResults(docs, m)| == |m| <==> forall p :: Has(m, p) ==> p in docs
    ensures (forall p :: Has(m, p) ==> p in docs) ==>
      Scores(SortByScore(ResolvedResults(docs, m))) == Scores(SortByScore(IdResults(m)))
  {
    RestrictLength(m, docs.Keys);
    if forall p :: Has(m, p) ==> p in docs {
      ResolvedScores(docs, m);
      SortScores(ResolvedResults(docs, m), IdResults(m));
    }
  }

  lemma ResolvedScores(docs: map<PageId, Fields>, m: PageMap)
    requires IsMap(m) && Scored(m)
    requires forall p :: Has(m, p) ==> p in docs
    ensures Scores(ResolvedResults(docs, m)) == Scores(IdResults(m))
  {
    assert forall k :: k in Keys(m) ==> k in docs.Keys;
    RestrictAll(m, docs.Keys);
    var a, c := ResolvedResults(docs, m), IdResults(m);
    forall i | 0 <= i < |m| ensures a[i].score == c[i].score {
      ResolveAt(docs, m, i);
    }
  }

  // ---------------------------------------------------------------------------
  // search

  /** The query: its terms (a set, in insertion order), its time ranges, and the page wanted. */
  datatype Query = Query(terms: seq<Term>, timeFilter: seq<TimeRange>, skip: nat, limit: nat)

  datatype Response = Response(results: seq<SearchResult>, totalCount: Option<nat>)

  /** Every posting map stored under one of the query's terms scores each of its pages. */
  ghost predicate PostingsScored(b: Backend, terms: seq<Term>) {
    forall t :: t in terms && b.termKey(t) in b.postings && b.postings[b.termKey(t)].Some? ==>
      Scored(b.postings[b.termKey(t)].value)
  }

  /** `pageResultsMap`: the term search's pages, narrowed by the time filter's. */
  ghost function Combined(b: Backend, q: Query): Option<PageMap> {
    IntersectResultMaps(TermSearchSpec(b, q.terms), FilterSearchSpec(b, q.timeFilter))
  }

  /** All results before pagination: full documents or page IDs, by descending score. */
  ghost function Ranked(b: Backend, m: PageMap, fullDocs: bool): seq<SearchResult>
    requires Scored(m)
  {
    if fullDocs then SortByScore(ResolvedResults(b.docs, m)) else SortByScore(IdResults(m))
  }

  /** Over well-formed collaborators, term search returns a `Map`, scored when the postings are. */
  lemma TermSearchWellFormed(b: Backend, terms: seq<Term>)
    requires WellFormed(b) && |terms| > 0
    ensures IsMap(TermSearchSpec(b, terms).value)
    ensures PostingsScored(b, terms) ==> Scored(TermSearchSpec(b, terms).value)
  {
    if !Collapses(b, terms) {
      LivePostings(b, terms);
      var ps := Postings(Values(TermValues(b, terms)));
      var merged := FromEntries(Concat(ps));
      FromEntriesFacts(Concat(ps));
      RestrictFacts(merged, CommonKeys(ps, merged));
      if PostingsScored(b, terms) {
        ConcatEntries(ps);
        forall e | e in Restrict(merged, CommonKeys(ps, merged)) ensures e.1.latest.Some? {
          var i :| 0 <= i < |ps| && e in ps[i];
          var t := PostingAt(b, terms, i);
        }
      }
    } else {
      TermSearchEmpty(b, terms);
    }
  }

  lemma CombinedWellFormed(b: Backend, q: Query)
    requires WellFormed(b) && (|q.terms| > 0 || |q.timeFilter| > 0)
    requires |q.timeFilter| == 0 ==> PostingsScored(b, q.terms)
    ensures Combined(b, q).Some? && IsMap(Combined(b, q).value) && Scored(Combined(b, q).value)
  {
    var t, f := TermSearchSpec(b, q.terms), FilterSearchSpec(b, q.timeFilter);
    if |q.timeFilter| > 0 {
      FilterSearchScored(b, q.timeFilter);
      FilterSearchIsMap(b, q.timeFilter);
      if |q.terms| > 0 {
        IntersectBoth(t.value, f.value);
      }
    } else {
      TermSearchWellFormed(b, q.terms);
    }
    IntersectScored(t, f);
  }

  /**
   * search: runs the term search and the filter search, narrows the first by the second,
   * counts the pages when asked, ranks them (full documents or page IDs) by descending score,
   * and returns the page `skip`, `limit` of that ranking. `None` stands for the `TypeError`
   * thrown when neither search runs, which leaves nothing to rank.
   */
  method Search(b: Backend, q: Query, fullDocs: bool, count: bool) returns (r: Option<Response>)
    requires WellFormed(b)
    requires |q.timeFilter| == 0 ==> PostingsScored(b, q.terms)
    ensures r.None? <==> |q.terms| == 0 && |q.timeFilter| == 0
    ensures r.Some? ==> Combined(b, q).Some? && Scored(Combined(b, q).value)
    ensures r.Some? ==> r.value.totalCount == if count then Some(|Combined(b, q).value|) else None
    ensures r.Some? ==> r.value.results == Paginate(Ranked(b, Combined(b, q).value, fullDocs), q.skip, q.limit)
    ensures r.Some? ==> SortedByScore(r.value.results) && |r.value.results| <= q.limit
  {
    var termPageResults := TermSearch(b, q.terms);
    var filterPageResults := FilterSearch(b, q.timeFilter);
    var pageResults := IntersectResultMaps(termPageResults, filterPageResults);
    assert pageResults == Combined(b, q);
    if pageResults.None? {
      return None;
    }
    CombinedWellFormed(b, q);
    var totalCount: Option<nat> := None;
    if count {
      totalCount := Some(|pageResults.value|);
    }
    var results: seq<SearchResult>;
    ghost var unsorted: seq<SearchResult>;
    if fullDocs {
      results := ResolveIdResults(b.docs, pageResults.value);
      unsorted := ResolvedResults(b.docs, pageResults.value);
    } else {
      results := FormatIdResults(pageResults.value);
      unsorted := IdResults(pageResults.value);
    }
    SortedIsSortByScore(results, unsorted);
    PaginateSorted(results, q.skip, q.limit);
    return Some(Response(Paginate(results, q.skip, q.limit), totalCount));
  }

  /** A result list sorted by score that keeps each score's order is the stable sort. */
  lemma SortedIsSortByScore(results: seq<SearchResult>, unsorted: seq<SearchResult>)
    requires SortedByScore(results)
    requires forall score :: WithScore(results, score) == WithScore(unsorted, score)
    ensures results == SortByScore(unsorted)
  {
    SortByScoreSorted(unsorted);
    forall score ensures WithScore(results, score) == WithScore(SortByScore(unsorted), score) {
      SortByScoreStable(unsorted, score);
    }
    StableSortUnique(results, SortByScore(unsorted));
  }

  /** A page of a ranking is itself ranked. */
  lemma PaginateSorted(results: seq<SearchResult>, skip: nat, limit: nat)
    requires SortedByScore(results)
    ensures SortedByScore(Paginate(results, skip, limit))
  {
    var page := Paginate(results, skip, limit);
    forall i, j | 0 <= i < j < |page| ensures page[i].score >= page[j].score {
      assert page[i] == results[skip + i] && page[j] == results[skip + j];
    }
  }

  /**
   * The search's AND law: with terms that do not collapse and a time filter, a page is
   * ranked exactly when every stored query term's posting map holds it and some bucket
   * of the filter's union holds it.
   */
  lemma SearchPages(b: Backend, q: Query, p: PageId)
    requires WellFormed(b) && |q.terms| > 0 && !Collapses(b, q.terms) && |q.timeFilter| > 0
    ensures Combined(b, q).Some? && IsMap(Combined(b, q).value) && Scored(Combined(b, q).value)
    ensures (exists r :: r in Ranked(b, Combined(b, q).value, false) && r.fields == IdOnly(p)) <==>
      && (forall t :: t in q.terms && b.termKey(t) in b.postings ==> Has(b.postings[b.termKey(t)].value, p))
      && (exists j :: 0 <= j < |Unioned(b, q.timeFilter)| && Has(Unioned(b, q.timeFilter)[j].1, p))
  {
    CombinedWellFormed(b, q);
    var t, f := TermSearchSpec(b, q.terms), FilterSearchSpec(b, q.timeFilter);
    FilterSearchIsMap(b, q.timeFilter);
    IntersectBoth(t.value, f.value);
    TermSearchAnd(b, q.terms, p);
    FilterSearchPages(b, q.timeFilter, p);
    IdResultsPages(Combined(b, q).value, p);
  }
}