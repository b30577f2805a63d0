/** The two orderings the word-list operations use: Python's stable
    `sorted(d.items(), key=lambda item: -item[1])` (descending by value,
    equal values kept in their original order) and `sorted` on strings
    (ascending, lexicographic by character code). */
module Sorting {
  import opened Collections

  /** The keys of a list of (key, value) items, in order. */
  function Keys<K, V>(items: seq<(K, V)>): (ks: seq<K>)
    ensures |ks| == |items|
    ensures forall i :: 0 <= i < |items| ==> ks[i] == items[i].0
  {
    if items == [] then [] else [items[0].0] + Keys(items[1..])
  }

  /** The items `(k, f(k))` for the keys `ks`, in order: what `d.items()`
      yields for a dict `d` filled by `d[k] = f(k)` over distinct `ks`. */
  function Tabulate<K>(ks: seq<K>, f: K -> nat): (items: seq<(K, nat)>)
  {
    seq(|ks|, i requires 0 <= i < |ks| => (ks[i], f(ks[i])))
  }

  /** `d.items()` of a dict held as the map `m` with key order `ks`. */
  function Items<K>(ks: seq<K>, m: map<K, nat>): (items: seq<(K, nat)>)
    requires forall k :: k in ks ==> k in m
    ensures |items| == |ks|
  {
    seq(|ks|, i requires 0 <= i < |ks| => (ks[i], m[ks[i]]))
  }

  /** A dict that maps each of its keys to `f` of it has the items of `Tabulate`. */
  lemma ItemsTabulate<K>(ks: seq<K>, m: map<K, nat>, f: K -> nat)
    requires forall k :: k in ks ==> k in m && m[k] == f(k)
    ensures Items(ks, m) == Tabulate(ks, f)
  {
  }

  lemma TabulateKeys<K>(ks: seq<K>, f: K -> nat)
    ensures Keys(Tabulate(ks, f)) == ks
  {
  }

  /** Values never increase from left to right. */
  ghost predicate SortedDesc<K>(items: seq<(K, nat)>) {
    forall i, j :: 0 <= i < j < |items| ==> items[i].1 >= items[j].1
  }

  /** The items whose value is `v`, in their order. */
  function WithValue<K>(items: seq<(K, nat)>, v: nat): seq<(K, nat)> {
    if items == [] then []
    else (if items[0].1 == v then [items[0]] else []) + WithValue(items[1..], v)
  }

  /** The keys `k` with `f(k) == v`, in their order. */
  function FilterBy<K>(ks: seq<K>, f: K -> nat, v: nat): seq<K> {
    if ks == [] then []
    else (if f(ks[0]) == v then [ks[0]] else []) + FilterBy(ks[1..], f, v)
  }

  /** Selecting keys by `f` keeps their order. */
  lemma {:induction false} FilterBySubsequence<K>(ks: seq<K>, f: K -> nat, v: nat)
    ensures IsSubsequence(FilterBy(ks, f, v), ks)
  {
    if ks == [] {
      SubsequenceEmpty(ks);
    } else {
      var rest := FilterBy(ks[1..], f, v);
      FilterBySubsequence(ks[1..], f, v);
      SubsequenceCons(rest, ks);
      if f(ks[0]) == v {
        assert FilterBy(ks, f, v) == [ks[0]] + rest;
      } else {
        assert FilterBy(ks, f, v) == rest;
      }
    }
  }

  /** Inserts `x` in front of the first item whose value is not larger. */
  function Insert<K>(x: (K, nat), ys: seq<(K, nat)>): (r: seq<(K, nat)>)
    ensures |r| == |ys| + 1
  {
    if ys == [] || ys[0].1 <= x.1 then [x] + ys
    else [ys[0]] + Insert(x, ys[1..])
  }

  /** Stable sort by descending value (insertion sort). */
  function RankByValue<K>(items: seq<(K, nat)>): (r: seq<(K, nat)>)
    ensures |r| == |items|
  {
    if items == [] then [] else Insert(items[0], RankByValue(items[1..]))
  }

  lemma {:induction false} InsertPermutation<K>(x: (K, nat), ys: seq<(K, nat)>)
    ensures multiset(Insert(x, ys)) == multiset(ys) + multiset{x}
  {
    if !(ys == [] || ys[0].1 <= x.1) {
      InsertPermutation(x, ys[1..]);
      assert ys == [ys[0]] + ys[1..];
    }
  }

  lemma {:induction false} InsertKeys<K>(x: (K, nat), ys: seq<(K, nat)>)
    ensures multiset(Keys(Insert(x, ys))) == multiset(Keys(ys)) + multiset{x.0}
  {
    if !(ys == [] || ys[0].1 <= x.1) {
      InsertKeys(x, ys[1..]);
      assert Keys(ys) == [ys[0].0] + Keys(ys[1..]);
      assert Keys(Insert(x, ys)) == [ys[0].0] + Keys(Insert(x, ys[1..]));
    }
  }

  lemma SortedCons<K>(e: (K, nat), rest: seq<(K, nat)>)
    requires SortedDesc(rest)
    requires forall k :: 0 <= k < |rest| ==> rest[k].1 <= e.1
    ensures SortedDesc([e] + rest)
  {
    var r := [e] + rest;
    forall i, j | 0 <= i < j < |r| ensures r[i].1 >= r[j].1 {
      assert r[j] == rest[j - 1];
      if i > 0 {
        assert r[i] == rest[i - 1];
      }
    }
  }

  /** Inserting keeps every value at most `b` when all were already. */
  lemma {:induction false} InsertBound<K>(x: (K, nat), ys: seq<(K, nat)>, b: nat)
    requires x.1 <= b
    requires forall k :: 0 <= k < |ys| ==> ys[k].1 <= b
    ensures forall k :: 0 <= k < |Insert(x, ys)| ==> Insert(x, ys)[k].1 <= b
  {
    if !(ys == [] || ys[0].1 <= x.1) {
      InsertBound(x, ys[1..], b);
    }
  }

  lemma {:induction false} InsertSorted<K>(x: (K, nat), ys: seq<(K, nat)>)
    requires SortedDesc(ys)
    ensures SortedDesc(Insert(x, ys))
  {
    if ys == [] || ys[0].1 <= x.1 {
      SortedCons(x, ys);
    } else {
      assert SortedDesc(ys[1..]);
      InsertSorted(x, ys[1..]);
      InsertBound(x, ys[1..], ys[0].1);
      SortedCons(ys[0], Insert(x, ys[1..]));
    }
  }

  lemma {:induction false} InsertStable<K>(x: (K, nat), ys: seq<(K, nat)>, v: nat)
    requires SortedDesc(ys)
    ensures WithValue(Insert(x, ys), v) == WithValue([x] + ys, v)
  {
    assert ([x] + ys)[1..] == ys;
    if !(ys == [] || ys[0].1 <= x.1) {
      InsertStable(x, ys[1..], v);
      var rest := Insert(x, ys[1..]);
      assert ([ys[0]] + rest)[1..] == rest;
      assert ([x] + ys[1..])[1..] == ys[1..];
      assert ys[0].1 != v || x.1 != v;
    }
  }

  /** RankByValue returns a permutation of its input. */
  lemma {:induction false} RankByValuePermutation<K>(items: seq<(K, nat)>)
    ensures multiset(RankByValue(items)) == multiset(items)
  {
    if items != [] {
      RankByValuePermutation(items[1..]);
      InsertPermutation(items[0], RankByValue(items[1..]));
      assert items == [items[0]] + items[1..];
    }
  }

  /** ... and so a permutation of its input's keys. */
  lemma {:induction false} RankByValueKeys<K>(items: seq<(K, nat)>)
    ensures multiset(Keys(RankByValue(items))) == multiset(Keys(items))
  {
    if items != [] {
      RankByValueKeys(items[1..]);
      InsertKeys(items[0], RankByValue(items[1..]));
      assert Keys(items) == [items[0].0] + Keys(items[1..]);
    }
  }

  /** RankByValue orders its result by non-increasing value. */
  lemma {:induction false} RankByValueSorted<K>(items: seq<(K, nat)>)
    ensures SortedDesc(RankByValue(items))
  {
    if items != [] {
      RankByValueSorted(items[1..]);
      InsertSorted(items[0], RankByValue(items[1..]));
    }
  }

  /** RankByValue is stable: the items of each value keep their input order. */
  lemma {:induction false} RankByValueStable<K>(items: seq<(K, nat)>, v: nat)
    ensures WithValue(RankByValue(items), v) == WithValue(items, v)
  {
    if items != [] {
      var rest := RankByValue(items[1..]);
      RankByValueStable(items[1..], v);
      RankByValueSorted(items[1..]);
      InsertStable(items[0], rest, v);
      assert ([items[0]] + rest)[1..] == rest;
    }
  }

  /** On items whose values are `f` of their keys, selecting by value and
      taking keys is selecting keys by `f`. */
  lemma {:induction false} KeysWithValue<K>(items: seq<(K, nat)>, f: K -> nat, v: nat)
    requires forall i :: 0 <= i < |items| ==> items[i].1 == f(items[i].0)
    ensures Keys(WithValue(items, v)) == FilterBy(Keys(items), f, v)
  {
    if items != [] {
      KeysWithValue(items[1..], f, v);
      var head := if items[0].1 == v then [items[0]] else [];
      assert Keys(head + WithValue(items[1..], v)) == Keys(head) + Keys(WithValue(items[1..], v));
      assert Keys(items)[1..] == Keys(items[1..]);
    }
  }

  /** The keys `ks` ranked by `f`, as `sorted(d.items(), key=lambda item: -item[1])`
      ranks a dict filled by `d[k] = f(k)` over the distinct keys `ks`. */
  function RankBy<K>(ks: seq<K>, f: K -> nat): (r: seq<K>)
    ensures |r| == |ks|
  {
    Keys(RankByValue(Tabulate(ks, f)))
  }

  /** The ranking is a permutation of `ks`. */
  lemma RankByPermutation<K>(ks: seq<K>, f: K -> nat)
    ensures multiset(RankBy(ks, f)) == multiset(ks)
  {
    RankByValueKeys(Tabulate(ks, f));
    TabulateKeys(ks, f);
  }

  /** Every ranked item still carries `f` of its key. */
  lemma RankedItems<K>(ks: seq<K>, f: K -> nat)
    ensures forall i :: 0 <= i < |ks| ==>
              RankByValue(Tabulate(ks, f))[i].1 == f(RankByValue(Tabulate(ks, f))[i].0)
  {
    var items := Tabulate(ks, f);
    var ranked := RankByValue(items);
    RankByValuePermutation(items);
    forall i | 0 <= i < |ranked| ensures ranked[i].1 == f(ranked[i].0) {
      assert ranked[i] in multiset(items);
    }
  }

  /** The ranking is ordered by non-increasing `f`. */
  lemma RankByOrder<K>(ks: seq<K>, f: K -> nat)
    ensures forall i, j :: 0 <= i < j < |ks| ==> f(RankBy(ks, f)[i]) >= f(RankBy(ks, f)[j])
  {
    var ranked := RankByValue(Tabulate(ks, f));
    RankedItems(ks, f);
    RankByValueSorted(Tabulate(ks, f));
    forall i, j | 0 <= i < j < |ks| ensures f(RankBy(ks, f)[i]) >= f(RankBy(ks, f)[j]) {
      assert ranked[i].1 >= ranked[j].1;
    }
  }

  /** Keys with equal `f` keep their relative order in `ks`. */
  lemma RankByStable<K>(ks: seq<K>, f: K -> nat, v: nat)
    ensures FilterBy(RankBy(ks, f), f, v) == FilterBy(ks, f, v)
  {
    var items := Tabulate(ks, f);
    var ranked := RankByValue(items);
    RankedItems(ks, f);
    RankByValueStable(items, v);
    KeysWithValue(ranked, f, v);
    KeysWithValue(items, f, v);
    TabulateKeys(ks, f);
  }

  /** Python's `<=` on strings: lexicographic by character code, a proper
      prefix before the longer string. */
  predicate LexLeq(a: string, b: string) {
    |a| == 0 || (|b| > 0 && (a[0] < b[0] || (a[0] == b[0] && LexLeq(a[1..], b[1..]))))
  }

  lemma {:induction false} LexTotal(a: string, b: string)
    ensures LexLeq(a, b) || LexLeq(b, a)
  {
    if |a| > 0 && |b| > 0 && a[0] == b[0] {
      LexTotal(a[1..], b[1..]);
    }
  }

  /** Ascending lexicographic order. */
  ghost predicate LexSorted(s: seq<string>) {
    forall i, j :: 0 <= i < j < |s| ==> LexLeq(s[i], s[j])
  }

  function InsertLex(x: string, ys: seq<string>): (r: seq<string>)
    ensures |r| == |ys| + 1
  {
    if ys == [] || LexLeq(x, ys[0]) then [x] + ys
    else [ys[0]] + InsertLex(x, ys[1..])
  }

  /** Python's `sorted` on a list of strings (insertion sort). */
  function SortLex(xs: seq<string>): seq<string> {
    if xs == [] then [] else InsertLex(xs[0], SortLex(xs[1..]))
  }

  lemma {:induction false} LexTransitive(a: string, b: string, c: string)
    requires LexLeq(a, b) && LexLeq(b, c)
    ensures LexLeq(a, c)
  {
    if |a| > 0 && a[0] == b[0] && b[0] == c[0] {
      LexTransitive(a[1..], b[1..], c[1..]);
    }
  }

  lemma LexSortedCons(e: string, rest: seq<string>)
    requires LexSorted(rest)
    requires forall k :: 0 <= k < |rest| ==> LexLeq(e, rest[k])
    ensures LexSorted([e] + rest)
  {
    var r := [e] + rest;
    forall i, j | 0 <= i < j < |r| ensures LexLeq(r[i], r[j]) {
      assert r[j] == rest[j - 1];
      if i > 0 {
        assert r[i] == rest[i - 1];
      }
    }
  }

  /** Inserting keeps every element at least `b` when all were already. */
  lemma {:induction false} InsertLexBound(x: string, ys: seq<string>, b: string)
    requires LexLeq(b, x)
    requires forall k :: 0 <= k < |ys| ==> LexLeq(b, ys[k])
    ensures forall k :: 0 <= k < |InsertLex(x, ys)| ==> LexLeq(b, InsertLex(x, ys)[k])
  {
    if !(ys == [] || LexLeq(x, ys[0])) {
      InsertLexBound(x, ys[1..], b);
    }
  }

  lemma {:induction false} InsertLexSpec(x: string, ys: seq<string>)
    requires LexSorted(ys)
    ensures multiset(InsertLex(x, ys)) == multiset([x] + ys)
    ensures LexSorted(InsertLex(x, ys))
  {
    if ys == [] || LexLeq(x, ys[0]) {
      forall k | 0 <= k < |ys| ensures LexLeq(x, ys[k]) {
        if k > 0 {
          LexTransitive(x, ys[0], ys[k]);
        }
      }
      LexSortedCons(x, ys);
    } else {
      assert LexSorted(ys[1..]);
      InsertLexSpec(x, ys[1..]);
      assert ys == [ys[0]] + ys[1..];
      LexTotal(x, ys[0]);
      InsertLexBound(x, ys[1..], ys[0]);
      LexSortedCons(ys[0], InsertLex(x, ys[1..]));
    }
  }

  /** SortLex returns a lexicographically sorted permutation of its input. */
  lemma {:induction false} SortLexSpec(xs: seq<string>)
    ensures multiset(SortLex(xs)) == multiset(xs)
    ensures LexSorted(SortLex(xs))
  {
    if xs != [] {
      SortLexSpec(xs[1..]);
      InsertLexSpec(xs[0], SortLex(xs[1..]));
      assert xs == [xs[0]] + xs[1..];
    }
  }
}
