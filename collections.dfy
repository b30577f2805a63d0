/** Sequence facts shared by the word-list operations: duplicate freedom,
    first-occurrence order, concatenation of words, per-element counts and
    sub-sequences. */
module Collections {

  /** Every element of `s` occurs in it exactly once. */
  ghost predicate NoDup<T>(s: seq<T>) {
    forall x | x in s :: multiset(s)[x] == 1
  }

  /** The set of the elements of `s` (Python's `set(s)`). */
  function ToSet<T>(s: seq<T>): set<T> {
    set x | x in s
  }

  lemma {:induction false} ToSetSize<T>(s: seq<T>)
    ensures |ToSet(s)| <= |s|
    ensures |ToSet(s)| == |s| <==> NoDup(s)
  {
    if s != [] {
      var p, x := s[..|s| - 1], s[|s| - 1];
      assert s == p + [x];
      ToSetSize(p);
      assert ToSet(s) == ToSet(p) + {x};
      if x in p {
        assert ToSet(s) == ToSet(p);
        assert multiset(s)[x] == multiset(p)[x] + 1;
      } else {
        assert |ToSet(s)| == |ToSet(p)| + 1;
        assert forall y :: multiset(s)[y] == multiset(p)[y] + (if y == x then 1 else 0);
        if NoDup(p) {
          assert NoDup(s);
        } else {
          var y :| y in p && multiset(p)[y] != 1;
          assert multiset(s)[y] == multiset(p)[y];
        }
      }
    }
  }

  /** Appending an element that is not yet present keeps a sequence free of duplicates. */
  lemma AppendNew<T>(s: seq<T>, x: T)
    requires NoDup(s) && x !in s
    ensures NoDup(s + [x])
  {
    assert forall y :: multiset(s + [x])[y] == multiset(s)[y] + (if y == x then 1 else 0);
  }

  /** A permutation of a duplicate-free sequence is duplicate-free. */
  lemma PermutationNoDup<T>(s: seq<T>, t: seq<T>)
    requires multiset(s) == multiset(t) && NoDup(s)
    ensures NoDup(t)
  {
    forall x | x in t ensures multiset(t)[x] == 1 {
      assert x in multiset(t);
    }
  }

  /** Index of the first occurrence of `x` in `s`. */
  function IndexOf<T(==)>(s: seq<T>, x: T): (i: nat)
    requires x in s
    ensures i < |s| && s[i] == x
    ensures forall j :: 0 <= j < i ==> s[j] != x
  {
    if s[0] == x then 0 else 1 + IndexOf(s[1..], x)
  }

  lemma IndexOfPrefix<T>(p: seq<T>, q: seq<T>, x: T)
    requires x in p
    ensures IndexOf(p + q, x) == IndexOf(p, x)
  {
    var i, j := IndexOf(p, x), IndexOf(p + q, x);
    assert (p + q)[i] == x;
  }

  /** The distinct elements of `s`, in the order in which each first occurs
      (the key order of a Python dict filled by scanning `s`). */
  function FirstSeen<T(==)>(s: seq<T>): seq<T> {
    if s == [] then []
    else
      var p := FirstSeen(s[..|s| - 1]);
      if s[|s| - 1] in s[..|s| - 1] then p else p + [s[|s| - 1]]
  }

  /** Scanning one more element adds it at the end exactly when it is new. */
  lemma FirstSeenSnoc<T>(s: seq<T>, i: nat)
    requires i < |s|
    ensures FirstSeen(s[..i + 1]) == if s[i] in s[..i] then FirstSeen(s[..i]) else FirstSeen(s[..i]) + [s[i]]
  {
    assert s[..i + 1][..i] == s[..i];
  }

  /** FirstSeen lists every element of `s` exactly once, ordered by first occurrence. */
  lemma {:induction false} FirstSeenSpec<T>(s: seq<T>)
    ensures NoDup(FirstSeen(s))
    ensures forall x :: x in FirstSeen(s) <==> x in s
    ensures forall i, j :: 0 <= i < j < |FirstSeen(s)| ==>
              IndexOf(s, FirstSeen(s)[i]) < IndexOf(s, FirstSeen(s)[j])
  {
    if s != [] {
      var p, x := s[..|s| - 1], s[|s| - 1];
      assert s == p + [x];
      FirstSeenSpec(p);
      var fp := FirstSeen(p);
      forall y | y in p ensures IndexOf(s, y) == IndexOf(p, y) {
        IndexOfPrefix(p, [x], y);
      }
      if x !in p {
        AppendNew(fp, x);
        assert IndexOf(s, x) == |p|;
      }
    }
  }

  /** The key order is a sub-sequence of the scanned sequence. */
  lemma {:induction false} FirstSeenSubsequence<T>(s: seq<T>)
    ensures IsSubsequence(FirstSeen(s), s)
  {
    if s == [] {
      SubsequenceEmpty(s);
    } else {
      var p, x := s[..|s| - 1], s[|s| - 1];
      assert s == p + [x];
      FirstSeenSubsequence(p);
      SubsequenceSnoc(FirstSeen(p), p, x);
    }
  }

  /** Scanning a duplicate-free sequence keeps every element, in order. */
  lemma {:induction false} FirstSeenOfNoDup<T>(s: seq<T>)
    requires NoDup(s)
    ensures FirstSeen(s) == s
  {
    if s != [] {
      var p, x := s[..|s| - 1], s[|s| - 1];
      assert s == p + [x];
      assert forall y :: multiset(s)[y] == multiset(p)[y] + (if y == x then 1 else 0);
      assert NoDup(p) by {
        forall y | y in p ensures multiset(p)[y] == 1 {
          assert y in multiset(p);
        }
      }
      assert multiset(s)[x] == 1;
      assert x !in multiset(p);
      FirstSeenOfNoDup(p);
    }
  }

  /** Concatenation of all the words of `ws`. */
  function Flatten<T>(ws: seq<seq<T>>): seq<T> {
    if ws == [] then [] else Flatten(ws[..|ws| - 1]) + ws[|ws| - 1]
  }

  /** Sum of the lengths of the words of `ws`. */
  function TotalLength<T>(ws: seq<seq<T>>): nat {
    if ws == [] then 0 else TotalLength(ws[..|ws| - 1]) + |ws[|ws| - 1]|
  }

  lemma {:induction false} FlattenLength<T>(ws: seq<seq<T>>)
    ensures |Flatten(ws)| == TotalLength(ws)
  {
    if ws != [] {
      FlattenLength(ws[..|ws| - 1]);
    }
  }

  /** An element occurs in the concatenation exactly when it occurs in one of the words. */
  lemma {:induction false} FlattenMembers<T>(ws: seq<seq<T>>, x: T)
    ensures x in Flatten(ws) <==> exists i :: 0 <= i < |ws| && x in ws[i]
  {
    if ws != [] {
      var p := ws[..|ws| - 1];
      FlattenMembers(p, x);
      assert forall i :: 0 <= i < |p| ==> ws[i] == p[i];
      if x in Flatten(ws) && x !in Flatten(p) {
        assert x in ws[|ws| - 1];
      }
    }
  }

  /** Sum, over the elements of `cs`, of the number of times each occurs in `s`. */
  ghost function SumCounts<T>(cs: seq<T>, s: seq<T>): nat {
    if cs == [] then 0 else multiset(s)[cs[0]] + SumCounts(cs[1..], s)
  }

  lemma {:induction false} SumCountsSnoc<T>(cs: seq<T>, s: seq<T>, x: T)
    ensures SumCounts(cs, s + [x]) == SumCounts(cs, s) + multiset(cs)[x]
  {
    if cs != [] {
      SumCountsSnoc(cs[1..], s, x);
      assert cs == [cs[0]] + cs[1..];
    }
  }

  /** Summing the counts over a duplicate-free list that covers `s` gives `|s|`. */
  lemma {:induction false} SumCountsCover<T>(cs: seq<T>, s: seq<T>)
    requires NoDup(cs)
    requires forall x :: x in s ==> x in cs
    ensures SumCounts(cs, s) == |s|
  {
    if s == [] {
      SumCountsEmpty(cs);
    } else {
      var p, x := s[..|s| - 1], s[|s| - 1];
      assert s == p + [x];
      SumCountsCover(cs, p);
      SumCountsSnoc(cs, p, x);
    }
  }

  lemma {:induction false} SumCountsEmpty<T>(cs: seq<T>)
    ensures SumCounts(cs, []) == 0
  {
    if cs != [] {
      SumCountsEmpty(cs[1..]);
    }
  }

  /** Sum of the values that `m` holds for the keys `ks`. */
  function SumValues<K>(ks: seq<K>, m: map<K, nat>): nat
    requires forall k :: k in ks ==> k in m
  {
    if ks == [] then 0 else m[ks[0]] + SumValues(ks[1..], m)
  }

  /** A map holding per-element counts of `s` sums to what SumCounts counts. */
  lemma {:induction false} SumValuesCounts<K>(ks: seq<K>, m: map<K, nat>, s: seq<K>)
    requires forall k :: k in ks ==> k in m && m[k] == multiset(s)[k]
    ensures SumValues(ks, m) == SumCounts(ks, s)
  {
    if ks != [] {
      SumValuesCounts(ks[1..], m, s);
    }
  }

  /** `idx` lists, in increasing order, positions of `b` that spell out `a`. */
  ghost predicate Embeds<T>(idx: seq<nat>, a: seq<T>, b: seq<T>) {
    && |idx| == |a|
    && (forall k :: 0 <= k < |idx| ==> idx[k] < |b| && b[idx[k]] == a[k])
    && (forall k, l :: 0 <= k < l < |idx| ==> idx[k] < idx[l])
  }

  /** `a` is obtained from `b` by deleting elements. */
  ghost predicate IsSubsequence<T>(a: seq<T>, b: seq<T>) {
    exists idx :: Embeds(idx, a, b)
  }

  function Shift(idx: seq<nat>): seq<nat> {
    seq(|idx|, k requires 0 <= k < |idx| => idx[k] + 1)
  }

  /** A sub-sequence of the tail of `b` is a sub-sequence of `b`, also with `b`'s head in front. */
  lemma SubsequenceCons<T>(a: seq<T>, b: seq<T>)
    requires b != [] && IsSubsequence(a, b[1..])
    ensures IsSubsequence(a, b)
    ensures IsSubsequence([b[0]] + a, b)
  {
    var idx :| Embeds(idx, a, b[1..]);
    assert Embeds(Shift(idx), a, b);
    assert Embeds([0] + Shift(idx), [b[0]] + a, b);
  }

  lemma SubsequenceEmpty<T>(b: seq<T>)
    ensures IsSubsequence([], b)
  {
    assert Embeds([], [], b);
  }

  /** Appending to `b` keeps a sub-sequence, also with the same element appended to both. */
  lemma SubsequenceSnoc<T>(a: seq<T>, b: seq<T>, x: T)
    requires IsSubsequence(a, b)
    ensures IsSubsequence(a, b + [x])
    ensures IsSubsequence(a + [x], b + [x])
  {
    var idx :| Embeds(idx, a, b);
    assert Embeds(idx, a, b + [x]);
    var last: seq<nat> := [|b|];
    assert Embeds(idx + last, a + [x], b + [x]);
  }

  lemma SubsequenceTransitive<T>(a: seq<T>, b: seq<T>, c: seq<T>)
    requires IsSubsequence(a, b) && IsSubsequence(b, c)
    ensures IsSubsequence(a, c)
  {
    var ab :| Embeds(ab, a, b);
    var bc :| Embeds(bc, b, c);
    var ac := seq(|ab|, k requires 0 <= k < |ab| => bc[ab[k]]);
    assert Embeds(ac, a, c);
  }

  lemma SubsequenceMembers<T>(a: seq<T>, b: seq<T>)
    requires IsSubsequence(a, b)
    ensures forall x :: x in a ==> x in b
  {
    var idx :| Embeds(idx, a, b);
    forall x | x in a ensures x in b {
      var k :| 0 <= k < |a| && a[k] == x;
      assert b[idx[k]] == x;
    }
  }
}
