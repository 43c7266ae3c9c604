/**
 * JavaScript's `Map` with string keys, as the list of its entries in iteration
 * (insertion) order. A well-formed map holds each key at most once (`IsMap`).
 * The operations follow the ECMAScript `Map`: `set` on a present key replaces the
 * value in place and keeps the entry's position, `set` on a new key appends, and
 * `new Map(entries)` is `set` applied to every entry from left to right.
 */
module JsMaps {
  import opened Wrappers

  type Entries<V> = seq<(string, V)>

  /** The keys in iteration order (`[...m.keys()]`). */
  function Keys<V>(m: Entries<V>): (ks: seq<string>)
    ensures |ks| == |m|
    ensures forall i :: 0 <= i < |m| ==> ks[i] == m[i].0
  {
    if m == [] then [] else [m[0].0] + Keys(m[1..])
  }

  /** The values in iteration order (`[...m.values()]`). */
  function Values<V>(m: Entries<V>): (vs: seq<V>)
    ensures |vs| == |m|
    ensures forall i :: 0 <= i < |m| ==> vs[i] == m[i].1
  {
    if m == [] then [] else [m[0].1] + Values(m[1..])
  }

  /** `m.has(k)` */
  predicate Has<V>(m: Entries<V>, k: string) {
    k in Keys(m)
  }

  function KeySet<V>(m: Entries<V>): set<string> {
    set k | k in Keys(m)
  }

  /** No key occurs twice: what every JavaScript `Map` satisfies. */
  ghost predicate IsMap<V>(m: Entries<V>) {
    forall i, j :: 0 <= i < j < |m| ==> m[i].0 != m[j].0
  }

  /** `m.get(k)`, with `None` for `undefined`. */
  function Get<V>(m: Entries<V>, k: string): (r: Option<V>)
    ensures r.Some? <==> Has(m, k)
    ensures r.Some? ==> (k, r.value) in m
  {
    if m == [] then None
    else if m[0].0 == k then Some(m[0].1)
    else Get(m[1..], k)
  }

  lemma {:induction false} GetAt<V>(m: Entries<V>, i: nat)
    requires IsMap(m) && i < |m|
    ensures Get(m, m[i].0) == Some(m[i].1)
  {
    if i > 0 {
      GetAt(m[1..], i - 1);
    }
  }

  /** `m.set(k, v)`: replace in place when `k` is present, append otherwise. */
  function SetEntry<V>(m: Entries<V>, k: string, v: V): Entries<V> {
    if m == [] then [(k, v)]
    else if m[0].0 == k then [(k, v)] + m[1..]
    else [m[0]] + SetEntry(m[1..], k, v)
  }

  /** After `m.set(k, v)`: the same keys, or `k` appended; `k` reads `v`; every other key reads as before. */
  lemma {:induction false} SetEntryFacts<V>(m: Entries<V>, k: string, v: V)
    ensures Has(m, k) ==> Keys(SetEntry(m, k, v)) == Keys(m)
    ensures !Has(m, k) ==> Keys(SetEntry(m, k, v)) == Keys(m) + [k]
    ensures forall k' :: Get(SetEntry(m, k, v), k') == if k' == k then Some(v) else Get(m, k')
    ensures forall e :: e in SetEntry(m, k, v) ==> e in m || e == (k, v)
  {
    if m != [] && m[0].0 != k {
      SetEntryFacts(m[1..], k, v);
      KeysCons(m[0], SetEntry(m[1..], k, v));
      KeysCons(m[0], m[1..]);
      assert [m[0]] + m[1..] == m;
      assert forall e :: e in m[1..] ==> e in m;
    } else if m != [] {
      KeysCons((k, v), m[1..]);
      KeysCons(m[0], m[1..]);
      assert [m[0]] + m[1..] == m;
      assert forall e :: e in m[1..] ==> e in m;
    }
  }

  lemma SetEntryIsMap<V>(m: Entries<V>, k: string, v: V)
    requires IsMap(m)
    ensures IsMap(SetEntry(m, k, v))
  {
    SetEntryFacts(m, k, v);
    var r := SetEntry(m, k, v);
    assert forall i :: 0 <= i < |m| ==> Keys(r)[i] == m[i].0;
  }

  /** In a map, an entry's key looks up that entry's value. */
  lemma GetMember<V>(m: Entries<V>, e: (string, V))
    requires IsMap(m) && e in m
    ensures Get(m, e.0) == Some(e.1)
  {
    var i :| 0 <= i < |m| && m[i] == e;
    GetAt(m, i);
  }

  /** Setting the key found at position `i` overwrites that position only. */
  lemma {:induction false} SetEntryAt<V>(m: Entries<V>, i: nat, v: V)
    requires IsMap(m) && i < |m|
    ensures SetEntry(m, m[i].0, v) == m[i := (m[i].0, v)]
  {
    if i > 0 {
      TailIsMap(m);
      SetEntryAt(m[1..], i - 1, v);
      assert m[0].0 != m[i].0;
      assert SetEntry(m, m[i].0, v) == [m[0]] + SetEntry(m[1..], m[i].0, v);
      assert m[1..][i - 1] == m[i];
      assert m[i := (m[i].0, v)] == [m[0]] + m[1..][i - 1 := (m[i].0, v)];
    }
  }

  /** `m.delete(k)` */
  function Delete<V>(m: Entries<V>, k: string): Entries<V> {
    if m == [] then []
    else if m[0].0 == k then m[1..]
    else [m[0]] + Delete(m[1..], k)
  }

  /** The entries whose key is in `s`, in their order. */
  function Restrict<V>(m: Entries<V>, s: set<string>): Entries<V> {
    if m == [] then []
    else if m[0].0 in s then [m[0]] + Restrict(m[1..], s)
    else Restrict(m[1..], s)
  }

  /** The entries whose key is not in `s`, in their order. */
  function Without<V>(m: Entries<V>, s: set<string>): Entries<V> {
    if m == [] then []
    else if m[0].0 in s then Without(m[1..], s)
    else [m[0]] + Without(m[1..], s)
  }

  /** The head key of a map does not occur again. */
  lemma HeadUnique<V>(m: Entries<V>)
    requires IsMap(m) && m != []
    ensures !Has(m[1..], m[0].0)
  {
    forall j | 0 <= j < |m[1..]| ensures Keys(m[1..])[j] != m[0].0 {
      assert m[1..][j] == m[j + 1];
    }
  }

  lemma TailIsMap<V>(m: Entries<V>)
    requires IsMap(m) && m != []
    ensures IsMap(m[1..])
  {
    forall i, j | 0 <= i < j < |m[1..]| ensures m[1..][i].0 != m[1..][j].0 {
      assert m[1..][i] == m[i + 1] && m[1..][j] == m[j + 1];
    }
  }

  /** Putting a new key in front of a map keeps it a map. */
  lemma ConsIsMap<V>(e: (string, V), m: Entries<V>)
    requires IsMap(m) && !Has(m, e.0)
    ensures IsMap([e] + m)
  {
    forall i, j | 0 <= i < j < |[e] + m| ensures ([e] + m)[i].0 != ([e] + m)[j].0 {
      assert ([e] + m)[j] == m[j - 1];
      if i == 0 {
        assert Keys(m)[j - 1] == m[j - 1].0;
      } else {
        assert ([e] + m)[i] == m[i - 1];
      }
    }
  }

  /** Appending a new key to a map keeps it a map. */
  lemma SnocIsMap<V>(m: Entries<V>, e: (string, V))
    requires IsMap(m) && !Has(m, e.0)
    ensures IsMap(m + [e])
  {
    forall i, j | 0 <= i < j < |m + [e]| ensures (m + [e])[i].0 != (m + [e])[j].0 {
      assert (m + [e])[i] == m[i];
      if j == |m| {
        assert Keys(m)[i] == m[i].0;
      } else {
        assert (m + [e])[j] == m[j];
      }
    }
  }

  lemma {:induction false} KeysCons<V>(e: (string, V), m: Entries<V>)
    ensures Keys([e] + m) == [e.0] + Keys(m)
    ensures forall k :: Has([e] + m, k) <==> k == e.0 || Has(m, k)
  {
    assert ([e] + m)[1..] == m;
  }

  lemma RestrictFacts<V>(m: Entries<V>, s: set<string>)
    ensures forall k :: Has(Restrict(m, s), k) <==> Has(m, k) && k in s
    ensures forall k :: Get(Restrict(m, s), k) == if k in s then Get(m, k) else None
    ensures forall e :: e in Restrict(m, s) ==> e in m
    ensures IsMap(m) ==> IsMap(Restrict(m, s))
  {
    RestrictHas(m, s);
    RestrictGet(m, s);
    if IsMap(m) {
      RestrictIsMap(m, s);
    }
  }

  lemma {:induction false} RestrictHas<V>(m: Entries<V>, s: set<string>)
    ensures forall k :: Has(Restrict(m, s), k) <==> Has(m, k) && k in s
  {
    if m != [] {
      RestrictHas(m[1..], s);
      KeysCons(m[0], Restrict(m[1..], s));
      KeysCons(m[0], m[1..]);
      assert [m[0]] + m[1..] == m;
    }
  }

  lemma {:induction false} RestrictGet<V>(m: Entries<V>, s: set<string>)
    ensures forall k :: Get(Restrict(m, s), k) == if k in s then Get(m, k) else None
    ensures forall e :: e in Restrict(m, s) ==> e in m
  {
    if m != [] {
      RestrictGet(m[1..], s);
      assert forall e :: e in m[1..] ==> e in m;
    }
  }

  lemma {:induction false} RestrictIsMap<V>(m: Entries<V>, s: set<string>)
    requires IsMap(m)
    ensures IsMap(Restrict(m, s))
  {
    if m != [] {
      TailIsMap(m);
      HeadUnique(m);
      RestrictIsMap(m[1..], s);
      RestrictHas(m[1..], s);
      if m[0].0 in s {
        ConsIsMap(m[0], Restrict(m[1..], s));
      }
    }
  }

  lemma WithoutFacts<V>(m: Entries<V>, s: set<string>)
    ensures forall k :: Has(Without(m, s), k) <==> Has(m, k) && k !in s
    ensures forall e :: e in Without(m, s) ==> e in m
    ensures IsMap(m) ==> IsMap(Without(m, s))
  {
    WithoutHas(m, s);
    WithoutEntries(m, s);
    if IsMap(m) {
      WithoutIsMap(m, s);
    }
  }

  lemma {:induction false} WithoutHas<V>(m: Entries<V>, s: set<string>)
    ensures forall k :: Has(Without(m, s), k) <==> Has(m, k) && k !in s
  {
    if m != [] {
      WithoutHas(m[1..], s);
      KeysCons(m[0], Without(m[1..], s));
      KeysCons(m[0], m[1..]);
      assert [m[0]] + m[1..] == m;
    }
  }

  lemma {:induction false} WithoutEntries<V>(m: Entries<V>, s: set<string>)
    ensures forall e :: e in Without(m, s) ==> e in m
  {
    if m != [] {
      WithoutEntries(m[1..], s);
      assert forall e :: e in m[1..] ==> e in m;
    }
  }

  lemma {:induction false} WithoutIsMap<V>(m: Entries<V>, s: set<string>)
    requires IsMap(m)
    ensures IsMap(Without(m, s))
  {
    if m != [] {
      TailIsMap(m);
      HeadUnique(m);
      WithoutIsMap(m[1..], s);
      WithoutHas(m[1..], s);
      if m[0].0 !in s {
        ConsIsMap(m[0], Without(m[1..], s));
      }
    }
  }

  /** Deleting one more key from a map is removing one more key from the original. */
  lemma {:induction false} DeleteWithout<V>(m: Entries<V>, s: set<string>, k: string)
    requires IsMap(m)
    ensures Delete(Without(m, s), k) == Without(m, s + {k})
  {
    if m != [] {
      TailIsMap(m);
      DeleteWithout(m[1..], s, k);
      if m[0].0 == k && m[0].0 !in s {
        HeadUnique(m);
        WithoutNothing(m[1..], s, k);
      }
    }
  }

  lemma {:induction false} WithoutEmpty<V>(m: Entries<V>)
    ensures Without(m, {}) == m
  {
    if m != [] {
      WithoutEmpty(m[1..]);
    }
  }

  lemma {:induction false} WithoutNothing<V>(m: Entries<V>, s: set<string>, k: string)
    requires !Has(m, k)
    ensures Without(m, s + {k}) == Without(m, s)
  {
    if m != [] {
      WithoutNothing(m[1..], s, k);
    }
  }

  /** Removing the keys of `d` is keeping those of `s` when, on `m`'s keys, the two are complements. */
  lemma {:induction false} WithoutIsRestrict<V>(m: Entries<V>, d: set<string>, s: set<string>)
    requires forall k :: k in Keys(m) ==> (k in d <==> k !in s)
    ensures Without(m, d) == Restrict(m, s)
  {
    if m != [] {
      WithoutIsRestrict(m[1..], d, s);
    }
  }

  /** Keeping a set that holds every key keeps the whole map. */
  lemma {:induction false} RestrictAll<V>(m: Entries<V>, s: set<string>)
    requires forall k :: k in Keys(m) ==> k in s
    ensures Restrict(m, s) == m
  {
    if m != [] {
      RestrictAll(m[1..], s);
    }
  }

  /** Keeping a set that holds none of the keys keeps nothing. */
  lemma {:induction false} RestrictNone<V>(m: Entries<V>, s: set<string>)
    requires forall k :: Has(m, k) ==> k !in s
    ensures Restrict(m, s) == []
  {
    if m != [] {
      assert Has(m, m[0].0);
      KeysCons(m[0], m[1..]);
      assert [m[0]] + m[1..] == m;
      RestrictNone(m[1..], s);
    }
  }

  /** The first `|a|` entries of `m` carry `a`'s keys when those keys begin `m`'s. */
  lemma PrefixKeys<V, W>(m: Entries<V>, a: Entries<W>)
    requires Keys(a) <= Keys(m)
    ensures Keys(m[..|a|]) == Keys(a)
  {
    assert forall i :: 0 <= i < |a| ==> Keys(m[..|a|])[i] == Keys(m)[i];
  }

  /** In a map, a key among the first `n` entries is not among the rest. */
  lemma SuffixFresh<V>(m: Entries<V>, n: nat, k: string)
    requires IsMap(m) && n <= |m| && Has(m[..n], k)
    ensures !Has(m[n..], k)
  {
    var i :| 0 <= i < n && Keys(m[..n])[i] == k;
    forall j | 0 <= j < |m| - n ensures Keys(m[n..])[j] != k {
      assert m[n..][j] == m[n + j] && m[..n][i] == m[i];
    }
  }

  /** Restricting never adds entries, and keeps all of them exactly when every key is kept. */
  lemma {:induction false} RestrictLength<V>(m: Entries<V>, s: set<string>)
    ensures |Restrict(m, s)| <= |m|
    ensures |Restrict(m, s)| == |m| <==> forall k :: Has(m, k) ==> k in s
  {
    if m != [] {
      RestrictLength(m[1..], s);
      KeysCons(m[0], m[1..]);
      assert [m[0]] + m[1..] == m;
    }
  }

  lemma {:induction false} RestrictAppend<V>(a: Entries<V>, b: Entries<V>, s: set<string>)
    ensures Restrict(a + b, s) == Restrict(a, s) + Restrict(b, s)
  {
    if a != [] {
      RestrictAppend(a[1..], b, s);
      assert (a + b)[1..] == a[1..] + b;
      if a[0].0 in s {
        assert Restrict(a + b, s) == [a[0]] + (Restrict(a[1..], s) + Restrict(b, s));
      }
    } else {
      assert a + b == b;
    }
  }

  /** Which keys survive, and in which order, depends only on the keys. */
  lemma {:induction false} RestrictKeys<V>(a: Entries<V>, b: Entries<V>, s: set<string>)
    requires Keys(a) == Keys(b)
    ensures Keys(Restrict(a, s)) == Keys(Restrict(b, s))
  {
    if a != [] {
      assert Keys(a[1..]) == Keys(a)[1..] && Keys(b[1..]) == Keys(b)[1..];
      RestrictKeys(a[1..], b[1..], s);
    }
  }

  /** The concatenation of several maps' entries (`ms.reduce((acc, m) => [...acc, ...m], [])`). */
  function Concat<V>(ms: seq<Entries<V>>): Entries<V> {
    if ms == [] then [] else ms[0] + Concat(ms[1..])
  }

  lemma {:induction false} ConcatHas<V>(ms: seq<Entries<V>>, k: string)
    ensures Has(Concat(ms), k) <==> exists i :: 0 <= i < |ms| && Has(ms[i], k)
  {
    if ms != [] {
      ConcatHas(ms[1..], k);
      KeysAppend(ms[0], Concat(ms[1..]));
      if Has(Concat(ms[1..]), k) {
        var i :| 0 <= i < |ms[1..]| && Has(ms[1..][i], k);
        assert ms[1..][i] == ms[i + 1];
      }
      forall i | 1 <= i < |ms| && Has(ms[i], k) ensures Has(Concat(ms[1..]), k) {
        assert ms[i] == ms[1..][i - 1];
      }
    }
  }

  lemma {:induction false} ConcatEntries<V>(ms: seq<Entries<V>>)
    ensures forall e :: e in Concat(ms) ==> exists i :: 0 <= i < |ms| && e in ms[i]
    ensures forall i, e :: 0 <= i < |ms| && e in ms[i] ==> e in Concat(ms)
  {
    if ms != [] {
      ConcatEntries(ms[1..]);
      assert forall i :: 1 <= i < |ms| ==> ms[i] == ms[1..][i - 1];
      forall e | e in Concat(ms) ensures exists i :: 0 <= i < |ms| && e in ms[i] {
        if e !in ms[0] {
          var i :| 0 <= i < |ms[1..]| && e in ms[1..][i];
          assert e in ms[i + 1];
        }
      }
    }
  }

  lemma KeysAppend<V>(a: Entries<V>, b: Entries<V>)
    ensures Keys(a + b) == Keys(a) + Keys(b)
  {
    assert forall i :: 0 <= i < |a + b| ==> Keys(a + b)[i] == (Keys(a) + Keys(b))[i];
  }

  lemma {:induction false} ConcatAppend<V>(a: seq<Entries<V>>, b: seq<Entries<V>>)
    ensures Concat(a + b) == Concat(a) + Concat(b)
  {
    if a != [] {
      calc {
        Concat(a + b);
        { assert (a + b)[0] == a[0] && (a + b)[1..] == a[1..] + b; }
        a[0] + Concat(a[1..] + b);
        { ConcatAppend(a[1..], b); }
        a[0] + (Concat(a[1..]) + Concat(b));
        Concat(a) + Concat(b);
      }
    } else {
      assert a + b == b;
    }
  }

  /** `new Map([...acc, ...es])` starting from an existing map `acc`. */
  function FromEntriesInto<V>(acc: Entries<V>, es: Entries<V>): Entries<V>
    decreases |es|
  {
    if es == [] then acc else FromEntriesInto(SetEntry(acc, es[0].0, es[0].1), es[1..])
  }

  /** `new Map(es)` */
  function FromEntries<V>(es: Entries<V>): Entries<V> {
    FromEntriesInto([], es)
  }

  /** The value of the last entry of `es` with key `k`. */
  ghost function LastValue<V>(es: Entries<V>, k: string): Option<V> {
    if es == [] then None
    else LastValue(es[1..], k).OrElse(if es[0].0 == k then Some(es[0].1) else None)
  }

  /** In a map the last entry for a key is its only entry. */
  lemma {:induction false} LastValueOfMap<V>(m: Entries<V>, k: string)
    requires IsMap(m)
    ensures LastValue(m, k) == Get(m, k)
  {
    if m != [] {
      TailIsMap(m);
      LastValueOfMap(m[1..], k);
      if m[0].0 == k {
        HeadUnique(m);
      }
    }
  }

  lemma {:induction false} LastValueAppend<V>(a: Entries<V>, b: Entries<V>, k: string)
    ensures LastValue(a + b, k) == LastValue(b, k).OrElse(LastValue(a, k))
  {
    if a != [] {
      LastValueAppend(a[1..], b, k);
      assert (a + b)[1..] == a[1..] + b;
      assert (a + b)[0] == a[0];
    } else {
      assert a + b == b;
    }
  }

  lemma {:induction false} LastValueAbsent<V>(es: Entries<V>, k: string)
    requires !Has(es, k)
    ensures LastValue(es, k) == None
  {
    if es != [] {
      LastValueAbsent(es[1..], k);
    }
  }

  /**
   * The last entry for `k` in a concatenation is the one in the last map holding `k`.
   */
  lemma {:induction false} LastValueConcat<V>(ms: seq<Entries<V>>, i: nat, k: string)
    requires i < |ms| && IsMap(ms[i]) && Has(ms[i], k)
    requires forall j :: i < j < |ms| ==> !Has(ms[j], k)
    ensures LastValue(Concat(ms), k) == Get(ms[i], k)
  {
    LastValueAppend(ms[0], Concat(ms[1..]), k);
    if i == 0 {
      assert !Has(Concat(ms[1..]), k) by {
        ConcatHas(ms[1..], k);
        forall j | 0 <= j < |ms[1..]| ensures !Has(ms[1..][j], k) {
          assert ms[1..][j] == ms[j + 1];
        }
      }
      LastValueAbsent(Concat(ms[1..]), k);
      LastValueOfMap(ms[0], k);
    } else {
      LastValueConcat(ms[1..], i - 1, k);
    }
  }

  lemma FromEntriesIntoFacts<V>(acc: Entries<V>, es: Entries<V>)
    ensures forall k :: Get(FromEntriesInto(acc, es), k) == LastValue(es, k).OrElse(Get(acc, k))
    ensures forall k :: Has(FromEntriesInto(acc, es), k) <==> Has(acc, k) || Has(es, k)
    ensures forall e :: e in FromEntriesInto(acc, es) ==> e in acc || e in es
    ensures Keys(acc) <= Keys(FromEntriesInto(acc, es))
    ensures IsMap(acc) ==> IsMap(FromEntriesInto(acc, es))
  {
    FromEntriesIntoGet(acc, es);
    FromEntriesIntoKeys(acc, es);
    if IsMap(acc) {
      FromEntriesIntoIsMap(acc, es);
    }
  }

  lemma {:induction false} FromEntriesIntoGet<V>(acc: Entries<V>, es: Entries<V>)
    ensures forall k :: Get(FromEntriesInto(acc, es), k) == LastValue(es, k).OrElse(Get(acc, k))
    decreases |es|
  {
    if es != [] {
      SetEntryFacts(acc, es[0].0, es[0].1);
      FromEntriesIntoGet(SetEntry(acc, es[0].0, es[0].1), es[1..]);
    }
  }

  lemma {:induction false} FromEntriesIntoKeys<V>(acc: Entries<V>, es: Entries<V>)
    ensures forall k :: Has(FromEntriesInto(acc, es), k) <==> Has(acc, k) || Has(es, k)
    ensures forall e :: e in FromEntriesInto(acc, es) ==> e in acc || e in es
    ensures Keys(acc) <= Keys(FromEntriesInto(acc, es))
    decreases |es|
  {
    if es != [] {
      var next := SetEntry(acc, es[0].0, es[0].1);
      SetEntryFacts(acc, es[0].0, es[0].1);
      FromEntriesIntoKeys(next, es[1..]);
      assert Keys(acc) <= Keys(next);
      KeysCons(es[0], es[1..]);
      assert [es[0]] + es[1..] == es;
      assert forall k :: Has(next, k) <==> Has(acc, k) || k == es[0].0;
      assert forall e :: e in es[1..] ==> e in es;
    }
  }

  lemma {:induction false} FromEntriesIntoIsMap<V>(acc: Entries<V>, es: Entries<V>)
    requires IsMap(acc)
    ensures IsMap(FromEntriesInto(acc, es))
    decreases |es|
  {
    if es != [] {
      SetEntryIsMap(acc, es[0].0, es[0].1);
      FromEntriesIntoIsMap(SetEntry(acc, es[0].0, es[0].1), es[1..]);
    }
  }

  /** `new Map(es)` holds exactly the keys of `es`, each with the value of its last entry. */
  lemma FromEntriesFacts<V>(es: Entries<V>)
    ensures IsMap(FromEntries(es))
    ensures forall k :: Has(FromEntries(es), k) <==> Has(es, k)
    ensures forall k :: Get(FromEntries(es), k) == LastValue(es, k)
    ensures forall e :: e in FromEntries(es) ==> e in es
  {
    FromEntriesIntoFacts([], es);
  }

  lemma FromEntriesIsMap<V>(es: Entries<V>)
    ensures IsMap(FromEntries(es))
  {
    FromEntriesIntoIsMap([], es);
  }

  /** Building from the entries of an existing map `b` whose keys `acc` lacks appends `b`. */
  lemma {:induction false} FromEntriesIntoFresh<V>(acc: Entries<V>, b: Entries<V>)
    requires IsMap(b)
    requires forall k :: Has(b, k) ==> !Has(acc, k)
    ensures FromEntriesInto(acc, b) == acc + b
    decreases |b|
  {
    if b != [] {
      var next := SetEntry(acc, b[0].0, b[0].1);
      assert FromEntriesInto(acc, b) == FromEntriesInto(next, b[1..]);
      assert Has(b, b[0].0);
      SetEntryFresh(acc, b[0].0, b[0].1);
      FreshTail(acc, b);
      FromEntriesIntoFresh(next, b[1..]);
      assert next + b[1..] == acc + b;
    }
  }

  lemma FreshTail<V>(acc: Entries<V>, b: Entries<V>)
    requires IsMap(b) && b != []
    requires forall k :: Has(b, k) ==> !Has(acc, k)
    ensures IsMap(b[1..])
    ensures forall k :: Has(b[1..], k) ==> !Has(acc + [b[0]], k)
  {
    TailIsMap(b);
    HeadUnique(b);
    KeysAppend(acc, [b[0]]);
    KeysCons(b[0], b[1..]);
    assert [b[0]] + b[1..] == b;
  }

  lemma {:induction false} SetEntryFresh<V>(m: Entries<V>, k: string, v: V)
    requires !Has(m, k)
    ensures SetEntry(m, k, v) == m + [(k, v)]
  {
    if m != [] {
      SetEntryFresh(m[1..], k, v);
    }
  }

  /** `new Map(m)` of a map is that map. */
  lemma FromEntriesOfMap<V>(m: Entries<V>)
    requires IsMap(m)
    ensures FromEntries(m) == m
  {
    FromEntriesIntoFresh([], m);
  }

  lemma {:induction false} FromEntriesIntoAppend<V>(acc: Entries<V>, a: Entries<V>, b: Entries<V>)
    ensures FromEntriesInto(acc, a + b) == FromEntriesInto(FromEntriesInto(acc, a), b)
    decreases |a|
  {
    if a != [] {
      assert (a + b)[1..] == a[1..] + b;
      assert (a + b)[0] == a[0];
      FromEntriesIntoAppend(SetEntry(acc, a[0].0, a[0].1), a[1..], b);
    } else {
      assert a + b == b;
    }
  }
}
