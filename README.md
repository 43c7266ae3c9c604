# Search-index query pipeline, in Dafny

This project models the query evaluation of Memex's search index,
`src/search/search-index/search.js`. It also proves the laws that evaluation
follows. The pipeline has these stages:

- **termSearch** looks up the posting map of every query term and intersects
  them. It is the boolean AND of the terms.
- **filterSearch** looks up the time buckets of every time range and unions
  them. Each page's `latest` stamp is raised to the time of the bucket it was
  found in.
- **intersectResultMaps** combines the two sides. A `null` side means "not
  requested".
- **formatIdResults / resolveIdResults** turn the combined map into results.
  These are either page IDs or full stored documents, stably sorted by
  descending score.
- **search** runs the stages in order. It takes the total count before
  materialising, then paginates.

The files:

- `wrappers.dfy`: `Option`, which stands for JavaScript's `null`/`undefined`.
- `js_maps.dfy` (module `JsMaps`): a JavaScript `Map` as a sequence of
  key/value pairs.
  - `IsMap` says the keys are distinct.
  - `new Map(entries)` (`FromEntries`) keeps a key where it first occurs and
    gives it the value of its last occurrence.
  - `set`, `get`, `delete`, filtering (`Restrict`, `Without`) and spreading
    several maps into one entry list (`Concat`) are modelled, with the lemmas
    that relate them.
- `util.dfy` (module `Util`): the records the search exchanges, and the
  collaborators it imports from `./util`.
  - The index store is given as data: a `Backend` value holding the postings,
    the range lookup, the bucket-key decoder and the stored documents.
  - The module-level lookup singleton becomes that parameter.
- `search.dfy` (module `Search`): the pipeline.
  - **Functions and lemmas:** the pure parts (`paginate`, `compareByScore`,
    `intersectResultMaps`).
  - **Methods with loops and invariants:** the parts that build or update
    collections step by step:
    - filterSearch's `push` loop and its in-place `pageMap.set` loop;
    - termSearch's `delete` loop;
    - the `push` loops of the two result formatters.
  - **`search`:** a method without a loop that assigns the count once.
  - **What each method is proved against:**
    - `TermSearch` and `FilterSearch` are proved equal to `TermSearchSpec` and
      `FilterSearchSpec`.
    - `FormatIdResults` and `ResolveIdResults` return a stable sort, by
      descending score, of `IdResults` and `ResolvedResults`. By
      `SortedIsSortByScore`, that is `SortByScore` of those lists.
    - `Search` returns `Paginate(Ranked(Combined(...)))`, the ranked
      combined map paginated, with its count.
  - **Lemmas:** the laws proved about those functions.

Under the lookup assumption stated below (`lookupByKeys` leaves absent keys
out), two of the source's own comments promise more than its code does. The
model follows the code:

- **A term missing from the store.** The comment at search.js:59 says that
  empty terms "cancel all other results out". `lookupByKeys` is taken to
  leave out keys the store does not hold. A term whose key is absent then
  drops out of the AND; it does not empty the result
  (`TermSearchSkipsUnknownTerm`). The result collapses to the empty map only
  in two cases: when no term key is stored, or when a stored posting value is
  `null` or empty (`TermSearchEmpty`).
- **The `latest` stamp of a page in several buckets.** The comment at
  search.js:39 speaks of the "latest of all hits". The code at lines 35-47
  keeps the record from the last bucket of the union that holds the page,
  stamped with that bucket's time (`FilterSearchRecord`).
  - That is the latest of all hits when the union lists its buckets in
    ascending time (`FilterSearchLatestAscending`).
  - It is not in general the latest otherwise: `FilterSearchKeepsLastBucket`
    shows a descending pair where the earlier time wins.

## Model

| member | source | states |
|---|---|---|
| Search.Paginate | src/search/search-index/search.js:14-15 | the page has at most `limit` results; it is empty when `skip` is past the end; otherwise it has `min(limit, n - skip)` results; its `i`-th result is the input's `skip + i`-th |
| Search.CompareByScore | src/search/search-index/search.js:11 | negative exactly when `a` scores higher, positive exactly when `b` scores higher (descending order) |
| Search.InsertPermutes | src/search/search-index/search.js:104 | inserting into the sorted prefix adds exactly that one result |
| Search.InsertSorted | src/search/search-index/search.js:104 | inserting into a list sorted by descending score keeps it sorted |
| Search.SortByScoreSorted | src/search/search-index/search.js:104 | the sort returns a list sorted by descending score that is a permutation of its input |
| Search.InsertWithScore | src/search/search-index/search.js:104 | insertion puts the new result before every equal-score result already placed, keeping their order |
| Search.SortByScoreStable | src/search/search-index/search.js:104 | the sort is stable: the results of each score keep their input order |
| Search.SortByScoreSpec | src/search/search-index/search.js:104 | sorted, a permutation, and stable, in one statement |
| Search.WithScoreCount | src/search/search-index/search.js:104 | the results of one score are, counted with multiplicity, exactly the input's results of that score |
| Search.StableSortUnique | src/search/search-index/search.js:117 | two sorted lists with the same results of every score, in the same order, are equal: any stable sort by `compareByScore` gives the same list |
| Search.InsertScores | src/search/search-index/search.js:117 | where insertion places a result depends only on the scores |
| Search.SortScores | src/search/search-index/search.js:117 | inputs with the same score sequence sort to the same score sequence |
| Search.SortByScoreMembers | src/search/search-index/search.js:104 | sorting neither adds nor drops a result |
| Search.Insert | src/search/search-index/search.js:104 | definition: one step of a stable insertion sort by `compareByScore`; characterised by InsertPermutes, InsertSorted, InsertWithScore and InsertScores |
| Search.SortByScore | src/search/search-index/search.js:104 | definition: `results.sort(compareByScore)` as a stable sort; characterised by SortByScoreSpec, SortByScoreStable, StableSortUnique and SortByScoreMembers |
| Search.SortedIsSortByScore | src/search/search-index/search.js:104 | a stable sorted list is the sort of the list it came from |
| Search.TermKeys | src/search/search-index/search.js:57 | definition: `[...query].map(keyGen.term)`; characterised by TermKeyIn |
| Search.TermValues | src/search/search-index/search.js:57 | definition: `termValuesMap`, the lookup of the term keys; characterised by TermEntry, StoredTermIndex, NothingFound and EmptyFound |
| Search.IsEmptyPosting | src/search/search-index/search.js:61 | definition: `curr == null` or `!curr.size`; characterised by ContainsEmptyTerm and EmptyFound |
| Search.ContainsEmptyTerm | src/search/search-index/search.js:60-63 | true exactly when some looked-up posting value is `null` or empty |
| Search.InAll | src/search/search-index/search.js:80-81 | definition: the negation of `terms.some(termValue => !termValue.has(pageId))`; characterised by MissingInSomeFacts and TermSearchAnd |
| Search.MissingInSome | src/search/search-index/search.js:80-88 | definition: the merged page IDs that some posting map lacks, in merged order; characterised by MissingInSomeFacts |
| Search.MergePostings | src/search/search-index/search.js:71-76 | definition: `new Map` over every posting map's entries; characterised by MergedHas, MergedGetLast and MergedFromFirst |
| Search.IntersectPostings | src/search/search-index/search.js:79-92 | definition: the merged map restricted to the pages every posting map holds; characterised by RemovedAreUncommon, SinglePostingAllCommon, IntersectGet and MergedOrder |
| Search.MissingInSomeFacts | src/search/search-index/search.js:80-88 | the filtered IDs are exactly the merged pages that some posting map lacks |
| Search.TermSearchSpec | src/search/search-index/search.js:50-95 | `None` exactly when there are no terms |
| Search.TermSearch | src/search/search-index/search.js:50-95 | termSearch, deletes included, returns what `TermSearchSpec` describes |
| Search.DeleteEach | src/search/search-index/search.js:91 | deleting each listed ID in turn leaves the map without exactly those IDs, in its order: it still has distinct keys, and holds a page exactly when the original holds it and it is not listed |
| Search.RemovedAreUncommon | src/search/search-index/search.js:79-92 | deleting the filtered IDs from the merged map leaves exactly its pages common to every posting map |
| Search.SinglePostingAllCommon | src/search/search-index/search.js:79 | with one posting map, skipping the deletion loses nothing: the merged map already is the intersection |
| Search.TermKeyIn | src/search/search-index/search.js:57 | every query term's key is among the requested keys |
| Search.TermEntry | src/search/search-index/search.js:57 | each lookup entry is some query term's key with its stored posting value |
| Search.StoredTermIndex | src/search/search-index/search.js:57 | each query term whose key is stored has its entry in the lookup |
| Search.NothingFound | src/search/search-index/search.js:57-66 | the lookup is empty exactly when no query term's key is stored |
| Search.EmptyFound | src/search/search-index/search.js:57-66 | the lookup contains an empty posting exactly when some query term's stored value is `null` or empty |
| Search.TermSearchEmpty | src/search/search-index/search.js:52-68 | `None` without terms; with terms, the empty map when no term key is stored or a stored value is `null` or empty, whatever the other terms hold |
| Search.LivePostings | src/search/search-index/search.js:66-94 | outside those cases, the result is the intersection of the looked-up posting maps |
| Search.PostingAt | src/search/search-index/search.js:57-76 | the `i`-th posting map of the merge is some query term's stored posting map |
| Search.MergedHas | src/search/search-index/search.js:71-76 | the merged map holds a page exactly when some posting map does |
| Search.TermSearchAnd | src/search/search-index/search.js:71-94 | a page is in the result exactly when every stored posting map of the query's terms holds it |
| Search.TermSearchSkipsUnknownTerm | src/search/search-index/search.js:57-68 | adding a term whose key the store lacks leaves the result unchanged |
| Search.TermSearchSingle | src/search/search-index/search.js:71-94 | with one term, the result is that term's posting map unchanged |
| Search.TermSearchValues | src/search/search-index/search.js:71-76 | each surviving page carries its record from the last posting map in lookup order |
| Search.IntersectGet | src/search/search-index/search.js:71-92 | each page of the intersection has the last posting map's record |
| Search.MergedGetLast | src/search/search-index/search.js:71-76 | in the merged map, a page of the last posting map has that map's record (last write wins) |
| Search.TermSearchOrder | src/search/search-index/search.js:71-92 | the result lists its pages in the order of the first posting map |
| Search.MergedFromFirst | src/search/search-index/search.js:71-76 | the merged map is the first posting map with the later ones written over it |
| Search.CommonOfMerged | src/search/search-index/search.js:80-88 | the merged pages common to all maps are the first map's pages common to all maps |
| Search.MergedOrder | src/search/search-index/search.js:71-92 | the intersection's key order is that of the first posting map restricted to the common pages |
| Search.RangeData | src/search/search-index/search.js:23-27 | definition: `data`, one `rangeLookup` per time range in filter order; FilterSearch's push loop builds exactly it |
| Search.Unioned | src/search/search-index/search.js:30-32 | definition: `unionedResults`; characterised by UnionedBucket and UnionedBucketsAreMaps |
| Search.Stamp | src/search/search-index/search.js:40-44 | definition: a bucket's page map with every record stamped; characterised by StampBucket, StampKeys, StampIsMap and StampGet |
| Search.StampedBuckets | src/search/search-index/search.js:36-46 | definition: every bucket of the union, stamped with its decoded time; characterised by StampedStep, FilterSearchPages and FilterSearchRecord |
| Search.StampProps | src/search/search-index/search.js:41-42 | a stamped record keeps its other fields and gets a `latest` of at least the bucket time: the bucket time when `latest` was missing or `0`, otherwise the larger of the two |
| Search.FilterSearchSpec | src/search/search-index/search.js:17-48 | `None` exactly when there are no time ranges |
| Search.FilterSearch | src/search/search-index/search.js:17-48 | filterSearch, with its push loop and in-place stamping, returns what `FilterSearchSpec` describes |
| Search.StampBucket | src/search/search-index/search.js:40-44 | the in-place `pageMap.set` loop turns the bucket's page map into its stamped copy |
| Search.UnionedBucketsAreMaps | src/search/search-index/search.js:30-32 | the union is a `Map` and so is every bucket in it |
| Search.StampAdvance | src/search/search-index/search.js:40-44 | one `set` in the loop stamps exactly the next page |
| Search.StampKeysKept | src/search/search-index/search.js:40-44 | the partly stamped map keeps the original's keys and the page not yet visited |
| Search.StampedStep | src/search/search-index/search.js:36-46 | the reduce appends each stamped bucket to the entries gathered so far |
| Search.StampKeys | src/search/search-index/search.js:40-44 | stamping keeps the pages and their order |
| Search.StampIsMap | src/search/search-index/search.js:40-44 | stamping keeps distinct keys |
| Search.StampGet | src/search/search-index/search.js:40-44 | after stamping, each page of the bucket reads its stamped record and no other page appears |
| Search.FilterSearchPages | src/search/search-index/search.js:30-47 | a page is in the result exactly when some bucket of the union holds it |
| Search.UnionedBucket | src/search/search-index/search.js:30-32 | a bucket key repeated across ranges keeps the page map of the last range that returned it |
| Search.FilterSearchRecord | src/search/search-index/search.js:35-47 | a page's record is the one from the last bucket holding it, stamped with that bucket's time |
| Search.LastHolder | src/search/search-index/search.js:35-47 | every page held by some bucket has a last bucket holding it |
| Search.FilterSearchLatestAscending | src/search/search-index/search.js:39-44 | when buckets come in ascending time, a page's `latest` is at least the time of every bucket holding it |
| Search.FilterSearchKeepsLastBucket | src/search/search-index/search.js:35-47 | with buckets at times 300 then 100 holding the same unstamped page, its `latest` ends as 100, not the maximum |
| Search.FilterSearchScored | src/search/search-index/search.js:40-44 | every page of the result has a `latest` |
| Search.FilterSearchIsMap | src/search/search-index/search.js:35-47 | the result is a `Map` |
| Search.IntersectResultMaps | src/search/search-index/search.js:120-132 | a `null` filter side gives the term side unchanged and a `null` term side the filter side; the result is `null` exactly when both are |
| Search.IntersectBoth | src/search/search-index/search.js:129-131 | with both sides present, the result holds exactly the pages on both sides, with the filter side's records and order, and is a `Map` |
| Search.IntersectScored | src/search/search-index/search.js:120-132 | the result is scored when the side its records come from is: the filter side when present, the term side otherwise |
| Search.IdResults | src/search/search-index/search.js:100-102 | one id-only result per map entry |
| Search.FormatIdResults | src/search/search-index/search.js:97-105 | the results are sorted by descending score and are a stable permutation of one id-only result per page, scored by its `latest` |
| Search.DocEntries | src/search/search-index/search.js:108 | one document entry per page kept |
| Search.ResolvedResults | src/search/search-index/search.js:107-115 | one document result per page that has a stored document |
| Search.RestrictedInDocs | src/search/search-index/search.js:108 | every page kept has a stored document |
| Search.DocEntriesAppend | src/search/search-index/search.js:108 | looking up a split list of pages is looking up each part |
| Search.FoundIsDocEntries | src/search/search-index/search.js:108 | the document lookup finds the map's pages that have a document, in the map's order, each with its document |
| Search.ResolveIdResults | src/search/search-index/search.js:107-118 | the results are sorted by descending score and are a stable permutation of one document result per page that the document lookup returned, scored by the page's `latest` |
| Search.ResolveLength | src/search/search-index/search.js:108 | the document lookup returns one entry per page that has a document |
| Search.ResolveAt | src/search/search-index/search.js:112-114 | the `i`-th looked-up document belongs to the `i`-th kept page, whose `latest` scores it |
| Search.IdResultsPages | src/search/search-index/search.js:97-105 | the id-only results name exactly the map's pages, each scored by its `latest` |
| Search.ResolvedCount | src/search/search-index/search.js:107-118 | the document results number at most the pages; all of them exactly when every page has a document; and then their ranked scores equal the id-only results' |
| Search.ResolvedScores | src/search/search-index/search.js:112-114 | when every page has a document, the two result lists carry the same scores in the same order |
| Search.Combined | src/search/search-index/search.js:158-161 | definition: `pageResultsMap`; characterised by CombinedWellFormed and SearchPages |
| Search.Ranked | src/search/search-index/search.js:168-170 | definition: the resolved or id-only results, sorted; characterised by Search, IdResultsPages and ResolvedCount |
| Search.TermSearchWellFormed | src/search/search-index/search.js:50-95 | with terms, termSearch returns a `Map`, scored when the postings are |
| Search.CombinedWellFormed | src/search/search-index/search.js:158-161 | when either search ran, the combined map exists, is a `Map` and is scored |
| Search.Search | src/search/search-index/search.js:141-177 | no response exactly when neither search ran; otherwise `totalCount` is the combined map's size when `count` is set and absent otherwise, whatever `fullDocs` is; the results are the ranked results paginated, sorted, and at most `limit` |
| Search.PaginateSorted | src/search/search-index/search.js:174 | a page of a sorted list is sorted |
| Search.SearchPages | src/search/search-index/search.js:149-170 | with terms and a time filter, a page is among the id-only results exactly when every stored posting map of the terms holds it and some bucket of the union does |
| Util.Found | src/search/search-index/search.js:57 | definition: the requested keys the store holds, in request order; characterised by FoundEntries, FoundHas, FoundIsMap and LookupInOrder |
| Util.FoundFacts | src/search/search-index/search.js:57 | the found entries are requested keys with their stored values; a key is found exactly when requested and stored; distinct requests give a `Map` |
| Util.FoundEntries | src/search/search-index/search.js:57 | every found entry is a requested, stored key with its stored value |
| Util.FoundHas | src/search/search-index/search.js:57 | a key is found exactly when it was requested and is stored |
| Util.FoundIsMap | src/search/search-index/search.js:108 | distinct requests find each key at most once |
| Util.LookupByKeys | src/search/search-index/search.js:57 | the lookup is a `Map` whose entries are requested keys that the store holds, with the stored values |
| Util.LookupGet | src/search/search-index/search.js:57 | the lookup reads the stored value for a requested, stored key and nothing for any other key |
| Util.LookupValues | src/search/search-index/search.js:57 | entries taken from the store read the store's value |
| Util.LookupInOrder | src/search/search-index/search.js:108 | with distinct keys, the lookup lists the found keys in request order |
| JsMaps.Keys | src/search/search-index/search.js:85 | the keys of a `Map`, one per entry, in order |
| JsMaps.Values | src/search/search-index/search.js:60 | the values of a `Map`, one per entry, in order |
| JsMaps.Has | src/search/search-index/search.js:81 | definition: `m.has(k)`, the key occurs in the map; characterised by Get, KeysCons and ConcatHas |
| JsMaps.KeySet | src/search/search-index/search.js:129 | definition: the keys of a map as a set, how `termPages.has(filterPage)` is tested; characterised by IntersectBoth |
| JsMaps.Get | src/search/search-index/search.js:113 | `get` finds a value exactly when the key is present, and the value is the key's entry |
| JsMaps.GetAt | src/search/search-index/search.js:113 | in a `Map`, each entry's key reads that entry's value |
| JsMaps.SetEntry | src/search/search-index/search.js:42 | definition: `m.set(k, v)`; characterised by SetEntryFacts, SetEntryIsMap, SetEntryAt and SetEntryFresh |
| JsMaps.SetEntryFacts | src/search/search-index/search.js:42 | `set` keeps the key order, or appends a new key; the key reads the new value and every other key reads as before |
| JsMaps.SetEntryIsMap | src/search/search-index/search.js:42 | `set` keeps keys distinct |
| JsMaps.SetEntryAt | src/search/search-index/search.js:42 | `set` on a present key replaces its value in place |
| JsMaps.SetEntryFresh | src/search/search-index/search.js:71-76 | `set` of a new key appends it |
| JsMaps.Delete | src/search/search-index/search.js:91 | definition: `m.delete(k)`; characterised by DeleteWithout |
| JsMaps.Without | src/search/search-index/search.js:84-91 | definition: the entries whose key is outside a set, in order; characterised by WithoutFacts and WithoutIsRestrict |
| JsMaps.DeleteWithout | src/search/search-index/search.js:91 | one more `delete` removes one more key, and only that one |
| JsMaps.WithoutFacts | src/search/search-index/search.js:91 | removing a set of keys leaves exactly the other keys, with their values, as a `Map` |
| JsMaps.WithoutIsRestrict | src/search/search-index/search.js:84-91 | deleting the keys outside a set is keeping the keys inside it |
| JsMaps.Restrict | src/search/search-index/search.js:131 | definition: the entries whose key is in a set, in order; characterised by RestrictFacts and RestrictLength |
| JsMaps.RestrictFacts | src/search/search-index/search.js:131 | filtering by a key set keeps exactly the keys in the set, with their values and order, as a `Map` |
| JsMaps.RestrictLength | src/search/search-index/search.js:108 | filtering keeps at most every entry, and all of them exactly when every key is in the set |
| JsMaps.Concat | src/search/search-index/search.js:30-32 | definition: the spread `[...m1, ...m2, ...]`; characterised by ConcatHas, ConcatEntries, ConcatAppend and LastValueConcat |
| JsMaps.ConcatHas | src/search/search-index/search.js:30-32 | the spread of several maps holds a key exactly when one of them does |
| JsMaps.ConcatEntries | src/search/search-index/search.js:30-32 | the spread's entries are exactly those of the maps spread |
| JsMaps.ConcatAppend | src/search/search-index/search.js:36-46 | spreading two lists of maps is spreading each |
| JsMaps.LastValueConcat | src/search/search-index/search.js:30-32 | in the spread, a key's last value comes from the last map that holds it |
| JsMaps.FromEntries | src/search/search-index/search.js:71-76 | definition: `new Map(entries)`; characterised by FromEntriesFacts and FromEntriesOfMap |
| JsMaps.FromEntriesInto | src/search/search-index/search.js:71-76 | definition: `set` of each entry in turn; characterised by FromEntriesIntoFacts, FromEntriesIntoFresh and FromEntriesIntoAppend |
| JsMaps.FromEntriesFacts | src/search/search-index/search.js:71-76 | `new Map(entries)` is a `Map` with exactly the entries' keys, each read as its last value |
| JsMaps.FromEntriesIntoFacts | src/search/search-index/search.js:71-76 | adding entries to a map keeps its keys and the map property, and each key reads its last added value or else its old one |
| JsMaps.FromEntriesOfMap | src/search/search-index/search.js:35-47 | `new Map` of a `Map`'s own entries is that map |
| JsMaps.FromEntriesIntoFresh | src/search/search-index/search.js:71-76 | adding a `Map` of fresh keys appends it |
| JsMaps.FromEntriesIntoAppend | src/search/search-index/search.js:71-76 | building from two lists of entries is building from the first and then adding the second |

## Left out

- The implementations of `lookupByKeys`/`initLookupByKeys`, `rangeLookup`,
  `keyGen.term`, `removeKeyType` and `structureSearchResult` from `./util`.
  They are not part of this model and are fields of `Backend` or small
  functions instead. Assumptions made about them:
  - `lookupByKeys` returns the requested keys the store holds, in request
    order, and leaves absent keys out.
  - `removeKeyType` yields an integer time.
  - `structureSearchResult(fields, latest)` scores the result by `latest`
    unchanged.
- The module-level lookup singleton. The `Backend` parameter replaces it.
- `async`/`await`. Lookups are reads of the given `Backend`.
- The `console.time`/`timeEnd` instrumentation.
- Search.Search: the both-`null` case is not modelled as thrown.
  - With no terms and no time range, reading `pageResultsMap.size` or
    iterating it throws a `TypeError` in JavaScript.
  - The model returns `None` there instead, and proves it happens exactly in
    that case.
- Search.Search: with no time range, `search` requires the posting maps of
  the query's terms to give every page a `latest` (`PostingsScored`). A
  score here is an `int`, so it cannot hold the `undefined` score that
  `structureSearchResult` gives a record without `latest`. In JavaScript,
  `compareByScore` then returns `NaN`, and the sort treats `NaN` as a tie.
  - When no record is scored, every pair ties, and the stable sort keeps map
    order.
  - When scored and unscored records are mixed, the comparator is
    inconsistent, and the order is left to the engine.
- Search.FormatIdResults: requires every record to carry `latest`
  (`Scored`), for the same reason. Unscored maps are outside the model.
- Search.ResolveIdResults: requires every record to carry `latest`
  (`Scored`), for the same reason. Unscored maps are outside the model.
- JavaScript number semantics: `NaN`, floating-point scores and times, and
  negative or fractional `slice` arguments.
  - Scores and times are `int`.
  - `skip` and `limit` are `nat`.
- The default query `{ skip: 0, limit: 10 }` and the default options. The
  `Search` method takes every field as an argument.
- The query's term set and time filter are sequences, not JavaScript `Set`s
  and `Map`s.
  - A repeated term changes nothing, because the lookup makes a `Map` of the
    keys.
  - A repeated time range adds its buckets again. A bucket key keeps the
    page map of the last range that returned it (`UnionedBucket`). So a
    repeat can change the result when two ranges return the same bucket key
    with different page maps.
- `Search.FormatIdResults` and `Search.ResolveIdResults` give the sort as a
  function on the collected sequence, not an in-place sort of the array. The
  sort is stable, so the outcome is the same (`StableSortUnique`).
- Search.FilterSearch does not model aliasing. The source mutates the page
  maps it got from `rangeLookup` in place, which a caller holding them would
  see. The model stamps a copy.

