/**
 * Sequence utilities shared by the pipeline: occurrence counts (what a
 * `collections.Counter` holds), filtering (a list comprehension with an `if`),
 * first-occurrence de-duplication (the key order of a Python dict or Counter)
 * and a stable descending sort (`sorted(..., key=..., reverse=True)`).
 */
module Sequences {

  /** No element occurs twice. */
  predicate NoDup<T(==)>(s: seq<T>) {
    forall i, j :: 0 <= i < j < |s| ==> s[i] != s[j]
  }

  /** Number of occurrences of `x` in `s`. */
  function Count<T(==)>(s: seq<T>, x: T): (n: nat)
    ensures n <= |s|
    ensures n > 0 <==> x in s
  {
    if s == [] then 0 else (if s[0] == x then 1 else 0) + Count(s[1..], x)
  }

  lemma {:induction false} CountAppend<T>(a: seq<T>, b: seq<T>, x: T)
    ensures Count(a + b, x) == Count(a, x) + Count(b, x)
  {
    if a == [] {
      assert a + b == b;
    } else {
      assert (a + b)[1..] == a[1..] + b;
      CountAppend(a[1..], b, x);
    }
  }

  /** The elements of `s` that satisfy `keep`, in their original order. */
  function Filter<T>(s: seq<T>, keep: T -> bool): (r: seq<T>)
    ensures |r| <= |s|
    ensures forall i :: 0 <= i < |r| ==> keep(r[i]) && r[i] in s
  {
    if s == [] then []
    else (if keep(s[0]) then [s[0]] else []) + Filter(s[1..], keep)
  }

  /** Filtering distributes over concatenation, so it keeps the relative order. */
  lemma {:induction false} FilterAppend<T>(a: seq<T>, b: seq<T>, keep: T -> bool)
    ensures Filter(a + b, keep) == Filter(a, keep) + Filter(b, keep)
  {
    if a == [] {
      assert a + b == b;
    } else {
      assert (a + b)[1..] == a[1..] + b;
      FilterAppend(a[1..], b, keep);
    }
  }

  /** Filtering keeps every occurrence of a kept value and none of a dropped one. */
  lemma {:induction false} FilterCount<T>(s: seq<T>, keep: T -> bool, x: T)
    ensures Count(Filter(s, keep), x) == if keep(x) then Count(s, x) else 0
  {
    if s != [] {
      FilterCount(s[1..], keep, x);
      CountAppend(if keep(s[0]) then [s[0]] else [], Filter(s[1..], keep), x);
    }
  }

  /** A sequence whose elements all pass the filter is its own filtering. */
  lemma {:induction false} FilterAllKept<T>(s: seq<T>, keep: T -> bool)
    requires forall i :: 0 <= i < |s| ==> keep(s[i])
    ensures Filter(s, keep) == s
  {
    if s != [] {
      FilterAllKept(s[1..], keep);
    }
  }

  /** Every element is either kept by the filter or by its negation. */
  lemma {:induction false} FilterPartition<T>(s: seq<T>, keep: T -> bool, drop: T -> bool)
    requires forall x :: drop(x) <==> !keep(x)
    ensures |Filter(s, keep)| + |Filter(s, drop)| == |s|
  {
    if s != [] {
      FilterPartition(s[1..], keep, drop);
    }
  }

  /** `f` applied to each element of `s`. */
  function MapSeq<A, B>(s: seq<A>, f: A -> B): (r: seq<B>)
    ensures |r| == |s|
    ensures forall i :: 0 <= i < |s| ==> r[i] == f(s[i])
  {
    seq(|s|, i requires 0 <= i < |s| => f(s[i]))
  }

  lemma MapSeqAppend<A, B>(a: seq<A>, b: seq<A>, f: A -> B)
    ensures MapSeq(a + b, f) == MapSeq(a, f) + MapSeq(b, f)
  {
  }

  /** `a` can be obtained from `b` by deleting elements. */
  ghost predicate IsSubsequence<T>(a: seq<T>, b: seq<T>)
    decreases |b|
  {
    if a == [] then true
    else if b == [] then false
    else (a[0] == b[0] && IsSubsequence(a[1..], b[1..])) || IsSubsequence(a, b[1..])
  }

  lemma {:induction false} FilterIsSubsequence<T>(s: seq<T>, keep: T -> bool)
    ensures IsSubsequence(Filter(s, keep), s)
  {
    if s != [] {
      FilterIsSubsequence(s[1..], keep);
      if !keep(s[0]) && Filter(s, keep) != [] {
        assert Filter(s, keep) == Filter(s[1..], keep);
      }
    }
  }

  /** Number of elements of `s` that belong to `keys`. */
  function CountIn<T>(s: seq<T>, keys: set<T>): (n: nat)
    ensures n <= |s|
  {
    if s == [] then 0 else (if s[0] in keys then 1 else 0) + CountIn(s[1..], keys)
  }

  lemma {:induction false} CountInAddKey<T>(s: seq<T>, keys: set<T>, x: T)
    requires x !in keys
    ensures CountIn(s, keys + {x}) == Count(s, x) + CountIn(s, keys)
  {
    if s != [] {
      CountInAddKey(s[1..], keys, x);
    }
  }

  /**
   * The distinct elements of `s` in order of first occurrence: the key order
   * of a dict or Counter filled from `s`.
   */
  function Distinct<T(==)>(s: seq<T>): (r: seq<T>)
    ensures NoDup(r)
    ensures forall i :: 0 <= i < |s| ==> s[i] in r
    ensures forall i :: 0 <= i < |r| ==> r[i] in s
    ensures |r| <= |s|
  {
    if s == [] then []
    else
      var d := Distinct(s[..|s| - 1]);
      assert s == s[..|s| - 1] + [s[|s| - 1]];
      if s[|s| - 1] in d then d else d + [s[|s| - 1]]
  }

  /** Position of the first occurrence of `x` in `s`; `|s|` when there is none. */
  function IndexOf<T(==)>(s: seq<T>, x: T): (i: nat)
    ensures i <= |s|
    ensures i < |s| <==> x in s
    ensures i < |s| ==> s[i] == x
    ensures forall j :: 0 <= j < i ==> s[j] != x
  {
    if s == [] then 0 else if s[0] == x then 0 else 1 + IndexOf(s[1..], x)
  }

  /** Appending never moves the first occurrence of an element already present. */
  lemma IndexOfAppend<T>(a: seq<T>, b: seq<T>, x: T)
    requires x in a
    ensures IndexOf(a + b, x) == IndexOf(a, x)
  {
    var k := IndexOf(a, x);
    assert (a + b)[k] == x;
  }

  /** The elements of `s` appear in increasing order of `pos`. */
  predicate Increasing<T>(s: seq<T>, pos: T -> int) {
    forall i, j :: 0 <= i < j < |s| ==> pos(s[i]) < pos(s[j])
  }

  /** `Distinct` lists the elements in the order of their first occurrence in `s`. */
  lemma {:induction false} DistinctFirstOccurrence<T>(s: seq<T>)
    ensures Increasing(Distinct(s), x => IndexOf(s, x))
  {
    if s != [] {
      var init := s[..|s| - 1];
      var last := s[|s| - 1];
      var d := Distinct(init);
      DistinctFirstOccurrence(init);
      assert s == init + [last];
      forall x | x in d ensures IndexOf(s, x) == IndexOf(init, x) < |init| {
        var k :| 0 <= k < |d| && d[k] == x;
        IndexOfAppend(init, [last], x);
      }
      if last !in d {
        assert last !in init;
        assert IndexOf(s, last) == |init|;
        var r := d + [last];
        forall i, j | 0 <= i < j < |r| ensures IndexOf(s, r[i]) < IndexOf(s, r[j]) {
          assert r[i] == d[i] && r[i] in d;
          if j < |d| {
            assert r[j] == d[j] && r[j] in d;
          }
        }
      } else {
        forall i, j | 0 <= i < j < |d| ensures IndexOf(s, d[i]) < IndexOf(s, d[j]) {
          assert d[i] in d && d[j] in d;
        }
      }
    }
  }

  /** `SortedDesc(xs, key)`: the keys never increase from left to right. */
  predicate SortedDesc<T>(xs: seq<T>, key: T -> int) {
    forall i, j :: 0 <= i < j < |xs| ==> key(xs[i]) >= key(xs[j])
  }

  /** Inserts `x` in front of the first element whose key is not greater than its own. */
  function InsertDesc<T>(x: T, xs: seq<T>, key: T -> int): seq<T>
  {
    if xs == [] || key(x) >= key(xs[0]) then [x] + xs
    else [xs[0]] + InsertDesc(x, xs[1..], key)
  }

  lemma {:induction false} InsertDescPermutes<T>(x: T, xs: seq<T>, key: T -> int)
    ensures multiset(InsertDesc(x, xs, key)) == multiset(xs) + multiset{x}
  {
    if xs != [] && key(x) < key(xs[0]) {
      InsertDescPermutes(x, xs[1..], key);
      assert xs == [xs[0]] + xs[1..];
    }
  }

  lemma {:induction false} InsertDescSorted<T>(x: T, xs: seq<T>, key: T -> int)
    requires SortedDesc(xs, key)
    ensures SortedDesc(InsertDesc(x, xs, key), key)
  {
    if xs != [] && key(x) < key(xs[0]) {
      var rest := InsertDesc(x, xs[1..], key);
      InsertDescSorted(x, xs[1..], key);
      InsertDescPermutes(x, xs[1..], key);
      forall i | 0 <= i < |rest| ensures key(xs[0]) >= key(rest[i]) {
        assert rest[i] in multiset(rest);
        if rest[i] != x {
          assert rest[i] in multiset(xs[1..]);
        }
      }
      var r := [xs[0]] + rest;
      assert forall i :: 0 < i < |r| ==> r[i] == rest[i - 1];
    }
  }

  /**
   * Python's `sorted(xs, key=key, reverse=True)`: insertion sort that puts
   * each element before the later ones of equal key, so ties keep the input
   * order.
   */
  function SortDesc<T>(xs: seq<T>, key: T -> int): seq<T>
  {
    if xs == [] then [] else InsertDesc(xs[0], SortDesc(xs[1..], key), key)
  }

  /** The sort returns a permutation of its input, ordered by descending key. */
  lemma {:induction false} SortDescCorrect<T>(xs: seq<T>, key: T -> int)
    ensures SortedDesc(SortDesc(xs, key), key)
    ensures multiset(SortDesc(xs, key)) == multiset(xs)
  {
    if xs != [] {
      SortDescCorrect(xs[1..], key);
      InsertDescSorted(xs[0], SortDesc(xs[1..], key), key);
      InsertDescPermutes(xs[0], SortDesc(xs[1..], key), key);
      assert xs == [xs[0]] + xs[1..];
    }
  }

  /** Elements of equal key appear in increasing order of `pos`. */
  predicate StableBy<T>(r: seq<T>, key: T -> int, pos: T -> int) {
    forall i, j :: 0 <= i < j < |r| && key(r[i]) == key(r[j]) ==> pos(r[i]) < pos(r[j])
  }

  /** Inserting an element that precedes all others keeps the ties in order. */
  lemma {:induction false} InsertDescStable<T>(x: T, xs: seq<T>, key: T -> int, pos: T -> int)
    requires StableBy(xs, key, pos)
    requires forall y :: y in xs ==> pos(x) < pos(y)
    ensures StableBy(InsertDesc(x, xs, key), key, pos)
  {
    if xs == [] || key(x) >= key(xs[0]) {
      PrependStableTies(x, xs, key, pos);
    } else {
      var rest := InsertDesc(x, xs[1..], key);
      InsertDescStable(x, xs[1..], key, pos);
      InsertDescPermutes(x, xs[1..], key);
      forall y | y in rest && key(y) == key(xs[0]) ensures pos(xs[0]) < pos(y) {
        assert y in multiset(rest);
        assert y != x;
        assert y in multiset(xs[1..]);
        var k :| 0 <= k < |xs[1..]| && xs[1..][k] == y;
        assert xs[k + 1] == y;
      }
      PrependStableTies(xs[0], rest, key, pos);
    }
  }

  /** An element that precedes the others of its key can go in front. */
  lemma PrependStableTies<T>(x: T, xs: seq<T>, key: T -> int, pos: T -> int)
    requires StableBy(xs, key, pos)
    requires forall y :: y in xs && key(y) == key(x) ==> pos(x) < pos(y)
    ensures StableBy([x] + xs, key, pos)
  {
    var r := [x] + xs;
    forall i, j | 0 <= i < j < |r| && key(r[i]) == key(r[j]) ensures pos(r[i]) < pos(r[j]) {
      assert r[j] == xs[j - 1] && r[j] in xs;
      if i > 0 {
        assert r[i] == xs[i - 1];
      }
    }
  }

  /**
   * The sort is stable: when the input is in increasing order of `pos`,
   * elements of equal key come out in increasing order of `pos`.
   */
  lemma {:induction false} SortDescStable<T>(xs: seq<T>, key: T -> int, pos: T -> int)
    requires Increasing(xs, pos)
    ensures StableBy(SortDesc(xs, key), key, pos)
  {
    if xs != [] {
      var sorted := SortDesc(xs[1..], key);
      SortDescStable(xs[1..], key, pos);
      SortDescCorrect(xs[1..], key);
      forall y | y in sorted ensures pos(xs[0]) < pos(y) {
        assert y in multiset(xs[1..]);
        var k :| 0 <= k < |xs[1..]| && xs[1..][k] == y;
        assert xs[k + 1] == y;
      }
      InsertDescStable(xs[0], sorted, key, pos);
    }
  }

  /** A prefix keeps the order, the tie order and the absence of duplicates. */
  lemma PrefixOrdered<T>(s: seq<T>, m: nat, key: T -> int, pos: T -> int)
    requires m <= |s| && NoDup(s) && SortedDesc(s, key) && StableBy(s, key, pos)
    ensures NoDup(s[..m]) && SortedDesc(s[..m], key) && StableBy(s[..m], key, pos)
  {
    var p := s[..m];
    assert forall i :: 0 <= i < m ==> p[i] == s[i];
  }

  lemma {:induction false} NoDupMultiplicity<T>(s: seq<T>, y: T)
    requires NoDup(s)
    ensures multiset(s)[y] <= 1
  {
    if s != [] {
      var init := s[..|s| - 1];
      assert s == init + [s[|s| - 1]];
      NoDupMultiplicity(init, y);
      if y == s[|s| - 1] {
        assert y !in init;
      }
    }
  }

  /** A permutation of a duplicate-free sequence is duplicate-free. */
  lemma PermutationNoDup<T>(a: seq<T>, b: seq<T>)
    requires multiset(a) == multiset(b) && NoDup(a)
    ensures NoDup(b)
  {
    forall i, j | 0 <= i < j < |b| ensures b[i] != b[j] {
      NoDupMultiplicity(a, b[i]);
      assert b == b[..j] + b[j..];
      assert b[i] in b[..j] && b[j] in b[j..];
    }
  }

  /** The number of distinct elements of a duplicate-free sequence is its length. */
  lemma {:induction false} NoDupCard<T>(s: seq<T>)
    requires NoDup(s)
    ensures |set x | x in s| == |s|
  {
    if s != [] {
      var init := s[..|s| - 1];
      NoDupCard(init);
      assert (set x | x in s) == (set x | x in init) + {s[|s| - 1]};
      assert s[|s| - 1] !in (set x | x in init);
    }
  }

  /** Reading a `Counter`: a missing key reads as 0. */
  function CounterGet<K>(m: map<K, nat>, k: K): (n: nat)
    ensures k !in m ==> n == 0
    ensures k in m ==> n == m[k]
  {
    if k in m then m[k] else 0
  }

  /** Sum of the values of a map. */
  ghost function Total<K>(m: map<K, nat>): nat
    decreases |m|
  {
    if |m| == 0 then 0
    else
      var k := PickKey(m);
      m[k] + Total(m - {k})
  }

  ghost function PickKey<K>(m: map<K, nat>): (k: K)
    requires |m| > 0
    ensures k in m
  {
    var k :| k in m; k
  }

  /** Any key can be taken out first when summing. */
  lemma {:induction false} TotalRemove<K>(m: map<K, nat>, k: K)
    requires k in m
    ensures Total(m) == m[k] + Total(m - {k})
    decreases |m|
  {
    var k' := PickKey(m);
    if k' != k {
      TotalRemove(m - {k'}, k);
      TotalRemove(m - {k}, k');
      assert m - {k'} - {k} == m - {k} - {k'};
    }
  }
}
