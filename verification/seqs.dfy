/**
 * The Kotlin collection operations the analyser relies on: `filter`, `distinct`,
 * `sortedBy` (a stable sort on a string key) and `groupBy`, with the facts about them the
 * analysers' contracts are built from.
 */
module Seqs {
  import opened Strings

  // ----- duplicates and first occurrences -----

  /** No element occurs twice. */
  predicate NoDuplicates<T(==)>(s: seq<T>) {
    forall i, j | 0 <= i < j < |s| :: s[i] != s[j]
  }

  /** The index at which `x` first occurs in `s`. */
  function FirstIndex<T(==)>(s: seq<T>, x: T): (i: nat)
    requires x in s
    ensures i < |s| && s[i] == x && x !in s[..i]
  {
    if s[0] == x then 0
    else
      var i := 1 + FirstIndex(s[1..], x);
      assert s[..i] == [s[0]] + s[1..][..i - 1];
      i
  }

  /** The first occurrence is the only index before which `x` does not occur. */
  lemma FirstIndexUnique<T>(s: seq<T>, x: T, i: nat)
    requires i < |s| && s[i] == x && x !in s[..i]
    ensures FirstIndex(s, x) == i
  {
    var f := FirstIndex(s, x);
    assert forall k | 0 <= k < i :: s[..i][k] == s[k];
    assert forall k | 0 <= k < f :: s[..f][k] == s[k];
  }

  /** Cutting `s` after an occurrence of `x` keeps the index of its first occurrence. */
  lemma FirstIndexInPrefix<T>(s: seq<T>, k: nat, x: T)
    requires k <= |s| && x in s[..k]
    ensures FirstIndex(s, x) == FirstIndex(s[..k], x)
  {
    var i := FirstIndex(s[..k], x);
    assert s[..k][..i] == s[..i];
    FirstIndexUnique(s, x, i);
  }

  /**
   * `s.distinct()`: each element once, at the position of its first occurrence — the
   * insertion order of the `LinkedHashSet` Kotlin builds.
   */
  function Distinct<T(==)>(s: seq<T>): (r: seq<T>)
    ensures (forall x | x in r :: x in s) && (forall x | x in s :: x in r)
    ensures NoDuplicates(r)
    ensures forall i, j | 0 <= i < j < |r| :: FirstIndex(s, r[i]) < FirstIndex(s, r[j])
  {
    if |s| == 0 then []
    else
      var init := s[..|s| - 1];
      var last := s[|s| - 1];
      var r := Distinct(init);
      assert s == init + [last];
      assert forall x | x in r :: FirstIndex(s, x) == FirstIndex(init, x) by {
        forall x | x in r
          ensures FirstIndex(s, x) == FirstIndex(init, x)
        {
          FirstIndexInPrefix(s, |s| - 1, x);
        }
      }
      if last in r then r
      else
        assert last !in s[..|s| - 1];
        FirstIndexUnique(s, last, |s| - 1);
        r + [last]
  }

  /** A sequence without duplicates holds every element at most once, and conversely. */
  lemma {:induction false} NoDuplicatesMultiset<T>(s: seq<T>)
    ensures NoDuplicates(s) <==> forall x :: multiset(s)[x] <= 1
  {
    if |s| > 0 {
      NoDuplicatesMultiset(s[1..]);
      assert s == [s[0]] + s[1..];
      assert multiset(s) == multiset{s[0]} + multiset(s[1..]);
      if NoDuplicates(s) {
        assert forall j | 0 <= j < |s| - 1 :: s[1..][j] == s[j + 1];
        assert NoDuplicates(s[1..]);
        assert s[0] !in s[1..];
      }
      if forall x :: multiset(s)[x] <= 1 {
        assert forall x :: multiset(s[1..])[x] <= multiset(s)[x];
        assert s[0] !in multiset(s[1..]);
        assert forall j | 1 <= j < |s| :: s[j] in s[1..];
      }
    }
  }

  /** Reordering keeps a duplicate-free sequence duplicate-free. */
  lemma NoDuplicatesPermutation<T>(a: seq<T>, b: seq<T>)
    requires multiset(a) == multiset(b) && NoDuplicates(a)
    ensures NoDuplicates(b)
  {
    NoDuplicatesMultiset(a);
    NoDuplicatesMultiset(b);
  }

  // ----- filtering -----

  /** `s.filter(p)`: the elements satisfying `p`, in their original order. */
  function Filter<T>(s: seq<T>, p: T -> bool): (r: seq<T>)
    ensures |r| <= |s|
    ensures forall x | x in r :: x in s && p(x)
    ensures forall x | x in s && p(x) :: x in r
  {
    if |s| == 0 then []
    else
      assert s == [s[0]] + s[1..];
      (if p(s[0]) then [s[0]] else []) + Filter(s[1..], p)
  }

  /** Filtering distributes over concatenation. */
  lemma {:induction false} FilterAppend<T>(a: seq<T>, b: seq<T>, p: T -> bool)
    ensures Filter(a + b, p) == Filter(a, p) + Filter(b, p)
  {
    if |a| > 0 {
      assert (a + b)[0] == a[0];
      assert (a + b)[1..] == a[1..] + b;
      FilterAppend(a[1..], b, p);
    } else {
      assert a + b == b;
    }
  }

  // ----- stable sorting on a string key -----

  /** `s` is in non-decreasing order of `key`. */
  predicate SortedByKey<T>(s: seq<T>, key: T -> string) {
    forall i, j | 0 <= i < j < |s| :: LexLessEq(key(s[i]), key(s[j]))
  }

  /** `s` is in strictly increasing order of `key`. */
  predicate StrictlySortedByKey<T>(s: seq<T>, key: T -> string) {
    forall i, j | 0 <= i < j < |s| :: LexLess(key(s[i]), key(s[j]))
  }

  /** Inserts `x` before the first element whose key is not smaller than its own. */
  function InsertByKey<T>(x: T, s: seq<T>, key: T -> string): (r: seq<T>)
    ensures multiset(r) == multiset(s) + multiset{x}
  {
    if |s| == 0 || LexLessEq(key(x), key(s[0])) then [x] + s
    else
      assert s == [s[0]] + s[1..];
      [s[0]] + InsertByKey(x, s[1..], key)
  }

  /**
   * `s.sortedBy(key)`: an insertion sort that puts each element before the later ones with an
   * equal key, so it is stable like Kotlin's.
   */
  function SortByKey<T>(s: seq<T>, key: T -> string): (r: seq<T>)
    ensures multiset(r) == multiset(s)
  {
    if |s| == 0 then []
    else
      assert s == [s[0]] + s[1..];
      InsertByKey(s[0], SortByKey(s[1..], key), key)
  }

  lemma {:induction false} InsertByKeySorted<T>(x: T, s: seq<T>, key: T -> string)
    requires SortedByKey(s, key)
    ensures SortedByKey(InsertByKey(x, s, key), key)
    decreases |s|
  {
    var r := InsertByKey(x, s, key);
    if |s| == 0 || LexLessEq(key(x), key(s[0])) {
      forall j | 0 <= j < |s|
        ensures LexLessEq(key(x), key(s[j]))
      {
        if j > 0 {
          LexLessEqTransitive(key(x), key(s[0]), key(s[j]));
        }
      }
      assert forall j | 1 <= j < |r| :: r[j] == s[j - 1];
    } else {
      var rest := InsertByKey(x, s[1..], key);
      InsertByKeySorted(x, s[1..], key);
      LexLessAsymmetric(key(s[0]), key(x));
      forall j | 0 <= j < |rest|
        ensures LexLessEq(key(s[0]), key(rest[j]))
      {
        assert rest[j] in multiset(rest);
        if rest[j] != x {
          assert rest[j] in multiset(s[1..]);
          var k :| 0 <= k < |s[1..]| && s[1..][k] == rest[j];
          assert s[k + 1] == rest[j];
        }
      }
      assert forall j | 1 <= j < |r| :: r[j] == rest[j - 1];
    }
  }

  /** The sort's output is in non-decreasing key order. */
  lemma {:induction false} SortByKeySorted<T>(s: seq<T>, key: T -> string)
    ensures SortedByKey(SortByKey(s, key), key)
  {
    if |s| > 0 {
      SortByKeySorted(s[1..], key);
      InsertByKeySorted(s[0], SortByKey(s[1..], key), key);
    }
  }

  /** With pairwise different keys a sorted sequence is strictly sorted. */
  lemma SortedDistinctKeysStrict<T>(s: seq<T>, key: T -> string)
    requires SortedByKey(s, key)
    requires forall i, j | 0 <= i < j < |s| :: key(s[i]) != key(s[j])
    ensures StrictlySortedByKey(s, key)
  {
    forall i, j | 0 <= i < j < |s|
      ensures LexLess(key(s[i]), key(s[j]))
    {
      LexLessTotal(key(s[i]), key(s[j]));
    }
  }

  /**
   * A strictly sorted sequence is determined by its elements: two of them holding the same
   * elements are equal, whatever order those elements were collected in.
   */
  lemma {:induction false} StrictlySortedUnique<T>(a: seq<T>, b: seq<T>, key: T -> string)
    requires StrictlySortedByKey(a, key) && StrictlySortedByKey(b, key)
    requires forall x :: x in a <==> x in b
    ensures a == b
    decreases |a|
  {
    assert |a| > 0 ==> a[0] in a;
    assert |b| > 0 ==> b[0] in b;
    if |a| > 0 && |b| > 0 {
      // each head is the least element of the other sequence
      assert a[0] in b && b[0] in a;
      LexLessIrreflexive(key(a[0]));
      LexLessIrreflexive(key(b[0]));
      LexLessAsymmetricImplies(key(a[0]), key(b[0]));
      assert a[0] == b[0];
      forall x
        ensures x in a[1..] <==> x in b[1..]
      {
        assert x in a[1..] <==> x in a && x != a[0];
        assert x in b[1..] <==> x in b && x != b[0];
      }
      StrictlySortedUnique(a[1..], b[1..], key);
      assert a == [a[0]] + a[1..];
      assert b == [b[0]] + b[1..];
    }
  }

  lemma LexLessAsymmetricImplies(a: string, b: string)
    ensures LexLess(a, b) ==> !LexLess(b, a)
  {
    if LexLess(a, b) {
      LexLessAsymmetric(a, b);
    }
  }

  // ----- grouping -----

  /** The elements of `s` whose key is `k`, in their original order. */
  function Select<T, K(==)>(s: seq<T>, key: T -> K, k: K): (r: seq<T>)
    ensures |r| <= |s|
    ensures forall x | x in r :: x in s && key(x) == k
    ensures forall x | x in s && key(x) == k :: x in r
  {
    if |s| == 0 then []
    else
      assert s == [s[0]] + s[1..];
      (if key(s[0]) == k then [s[0]] else []) + Select(s[1..], key, k)
  }

  /** The key of every element, in order. */
  function KeysOf<T, K>(s: seq<T>, key: T -> K): (ks: seq<K>)
    ensures |ks| == |s| && forall i | 0 <= i < |s| :: ks[i] == key(s[i])
  {
    seq(|s|, i requires 0 <= i < |s| => key(s[i]))
  }

  /** One group per key of `ks`, in the order of `ks`. */
  function GroupsFor<T, K(==)>(s: seq<T>, key: T -> K, ks: seq<K>): (groups: seq<(K, seq<T>)>)
    ensures |groups| == |ks|
    ensures forall i | 0 <= i < |ks| :: groups[i] == (ks[i], Select(s, key, ks[i]))
  {
    if |ks| == 0 then [] else [(ks[0], Select(s, key, ks[0]))] + GroupsFor(s, key, ks[1..])
  }

  /**
   * `s.groupBy(key)` read as its entries: one (key, elements) pair per distinct key, keys in
   * the order they were first seen (a `LinkedHashMap`), elements in their original order.
   */
  function GroupBy<T, K(==)>(s: seq<T>, key: T -> K): seq<(K, seq<T>)> {
    GroupsFor(s, key, Distinct(KeysOf(s, key)))
  }

  /** The total number of elements over all groups. */
  function TotalSize<K, T>(groups: seq<(K, seq<T>)>): nat {
    if |groups| == 0 then 0 else |groups[0].1| + TotalSize(groups[1..])
  }

  /** How many times `k` occurs in `ks`. */
  function Occurrences<K(==)>(ks: seq<K>, k: K): nat {
    if |ks| == 0 then 0 else (if ks[0] == k then 1 else 0) + Occurrences(ks[1..], k)
  }

  lemma {:induction false} OccurrencesDistinct<K>(ks: seq<K>, k: K)
    requires NoDuplicates(ks)
    ensures Occurrences(ks, k) == if k in ks then 1 else 0
  {
    if |ks| > 0 {
      assert NoDuplicates(ks[1..]) by {
        assert forall i | 0 <= i < |ks| - 1 :: ks[1..][i] == ks[i + 1];
      }
      OccurrencesDistinct(ks[1..], k);
      assert ks == [ks[0]] + ks[1..];
      assert ks[0] !in ks[1..];
    }
  }

  /** Peeling the first element off `s` takes one element from each group holding its key. */
  lemma {:induction false} TotalSizeStep<T, K>(s: seq<T>, key: T -> K, ks: seq<K>)
    requires |s| > 0
    ensures TotalSize(GroupsFor(s, key, ks))
         == Occurrences(ks, key(s[0])) + TotalSize(GroupsFor(s[1..], key, ks))
  {
    if |ks| > 0 {
      TotalSizeStep(s, key, ks[1..]);
    }
  }

  /** Groups over distinct keys that cover every key of `s` hold exactly `|s|` elements. */
  lemma {:induction false} TotalSizeCovering<T, K>(s: seq<T>, key: T -> K, ks: seq<K>)
    requires NoDuplicates(ks)
    requires forall x | x in s :: key(x) in ks
    ensures TotalSize(GroupsFor(s, key, ks)) == |s|
  {
    if |s| == 0 {
      TotalSizeEmpty(s, key, ks);
    } else {
      assert s[0] in s;
      assert forall x | x in s[1..] :: x in s;
      TotalSizeStep(s, key, ks);
      OccurrencesDistinct(ks, key(s[0]));
      TotalSizeCovering(s[1..], key, ks);
    }
  }

  lemma {:induction false} TotalSizeEmpty<T, K>(s: seq<T>, key: T -> K, ks: seq<K>)
    requires |s| == 0
    ensures TotalSize(GroupsFor(s, key, ks)) == 0
  {
    if |ks| > 0 {
      TotalSizeEmpty(s, key, ks[1..]);
    }
  }

  /** Every key of `s` is among the distinct keys. */
  lemma DistinctKeysCover<T, K>(s: seq<T>, key: T -> K)
    ensures forall x | x in s :: key(x) in Distinct(KeysOf(s, key))
  {
    forall x | x in s
      ensures key(x) in KeysOf(s, key)
    {
      var j :| 0 <= j < |s| && s[j] == x;
      assert KeysOf(s, key)[j] == key(x);
    }
  }

  /** The distinct keys are exactly the keys of the elements. */
  lemma DistinctKeysExactly<T, K>(s: seq<T>, key: T -> K)
    ensures forall x | x in s :: key(x) in Distinct(KeysOf(s, key))
    ensures forall k | k in Distinct(KeysOf(s, key)) :: exists x | x in s :: key(x) == k
  {
    DistinctKeysCover(s, key);
    forall k | k in Distinct(KeysOf(s, key))
      ensures exists x | x in s :: key(x) == k
    {
      var j :| 0 <= j < |s| && KeysOf(s, key)[j] == k;
      assert s[j] in s;
    }
  }

  /** Groups over distinct keys that are exactly the keys of `s` partition `s`. */
  lemma GroupsForPartition<T, K>(s: seq<T>, key: T -> K, ks: seq<K>)
    requires NoDuplicates(ks)
    requires forall x | x in s :: key(x) in ks
    requires forall k | k in ks :: exists x | x in s :: key(x) == k
    ensures var groups := GroupsFor(s, key, ks);
      && (forall i | 0 <= i < |groups| :: |groups[i].1| > 0)
      && (forall i, x | 0 <= i < |groups| && x in s :: x in groups[i].1 <==> key(x) == groups[i].0)
      && (forall x | x in s :: exists i | 0 <= i < |groups| :: groups[i].0 == key(x))
      && TotalSize(groups) == |s|
  {
    var groups := GroupsFor(s, key, ks);
    forall i | 0 <= i < |groups|
      ensures |groups[i].1| > 0
    {
      assert ks[i] in ks;
      var x :| x in s && key(x) == ks[i];
      assert x in groups[i].1;
    }
    forall x | x in s
      ensures exists i | 0 <= i < |groups| :: groups[i].0 == key(x)
    {
      var i :| 0 <= i < |ks| && ks[i] == key(x);
      assert groups[i].0 == key(x);
    }
    TotalSizeCovering(s, key, ks);
  }

  /**
   * `groupBy` partitions `s`: every group is non-empty, each element lies in exactly the group
   * of its own key and there is such a group, and the group sizes add up to `|s|`.
   */
  lemma GroupByPartition<T, K>(s: seq<T>, key: T -> K)
    ensures var groups := GroupBy(s, key);
      && (forall i | 0 <= i < |groups| :: |groups[i].1| > 0)
      && (forall i, x | 0 <= i < |groups| && x in s :: x in groups[i].1 <==> key(x) == groups[i].0)
      && (forall x | x in s :: exists i | 0 <= i < |groups| :: groups[i].0 == key(x))
      && TotalSize(groups) == |s|
  {
    DistinctKeysExactly(s, key);
    GroupsForPartition(s, key, Distinct(KeysOf(s, key)));
  }

  /** Sorting keeps exactly the elements it was given. */
  lemma SortByKeyElements<T>(s: seq<T>, key: T -> string)
    ensures forall x :: x in SortByKey(s, key) <==> x in s
  {
    var r := SortByKey(s, key);
    assert forall x :: x in r <==> x in multiset(r);
    assert forall x :: x in s <==> x in multiset(s);
  }
}
