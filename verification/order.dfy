/**
 * Orderings and small sequence folds used by the group-by and sort steps of
 * the three pipelines: Python's string order, strict total orders in
 * general, the sorted distinct key list a group-by walks, a sort of
 * timestamps, and the min / max / sum aggregates.
 */
module Order {

  /** Python's `<` on `str`: lexicographic by code point; a proper prefix is smaller. */
  predicate StrLt(a: string, b: string)
    decreases |a|
  {
    if |a| == 0 then |b| > 0
    else if |b| == 0 then false
    else a[0] < b[0] || (a[0] == b[0] && StrLt(a[1..], b[1..]))
  }

  lemma {:induction false} StrLtIrreflexive(a: string)
    ensures !StrLt(a, a)
  {
    if |a| > 0 {
      StrLtIrreflexive(a[1..]);
    }
  }

  lemma {:induction false} StrLtTransitive(a: string, b: string, c: string)
    requires StrLt(a, b) && StrLt(b, c)
    ensures StrLt(a, c)
  {
    if |a| > 0 && a[0] == b[0] && b[0] == c[0] {
      StrLtTransitive(a[1..], b[1..], c[1..]);
    }
  }

  lemma {:induction false} StrLtTotal(a: string, b: string)
    requires a != b
    ensures StrLt(a, b) || StrLt(b, a)
  {
    if |a| > 0 && |b| > 0 && a[0] == b[0] {
      assert a == [a[0]] + a[1..] && b == [b[0]] + b[1..];
      StrLtTotal(a[1..], b[1..]);
    }
  }

  /** `lt` is irreflexive, transitive and relates any two distinct values. */
  ghost predicate IsStrictTotalOrder<K(!new)>(lt: (K, K) -> bool)
  {
    && (forall a :: !lt(a, a))
    && (forall a, b, c :: lt(a, b) && lt(b, c) ==> lt(a, c))
    && (forall a, b :: a != b ==> lt(a, b) || lt(b, a))
  }

  lemma StrLtIsStrictTotalOrder()
    ensures IsStrictTotalOrder(StrLt)
  {
    forall a: string ensures !StrLt(a, a) {
      StrLtIrreflexive(a);
    }
    forall a: string, b: string, c: string | StrLt(a, b) && StrLt(b, c)
      ensures StrLt(a, c)
    {
      StrLtTransitive(a, b, c);
    }
    forall a: string, b: string | a != b ensures StrLt(a, b) || StrLt(b, a) {
      StrLtTotal(a, b);
    }
  }

  /** Every element is strictly below every later one (so no element repeats). */
  ghost predicate SortedBy<K>(lt: (K, K) -> bool, s: seq<K>)
  {
    forall i, j :: 0 <= i < j < |s| ==> lt(s[i], s[j])
  }

  lemma SortedByIsDistinct<K(!new)>(lt: (K, K) -> bool, s: seq<K>, i: int, j: int)
    requires IsStrictTotalOrder(lt) && SortedBy(lt, s)
    requires 0 <= i < j < |s|
    ensures s[i] != s[j]
  {
  }

  /** Adds `k` to a sorted distinct key list, keeping it sorted and distinct. */
  function InsertDistinct<K(==,!new)>(lt: (K, K) -> bool, k: K, s: seq<K>): (r: seq<K>)
    requires IsStrictTotalOrder(lt) && SortedBy(lt, s)
    ensures SortedBy(lt, r)
    ensures forall x :: x in r <==> x == k || x in s
  {
    if s == [] then [k]
    else if k == s[0] then s
    else if lt(k, s[0]) then [k] + s
    else
      var tail := InsertDistinct(lt, k, s[1..]);
      assert forall x :: x in tail ==> lt(s[0], x);
      [s[0]] + tail
  }

  /**
   * The distinct values of `s` in ascending order: the key list a sorted
   * group-by walks.
   */
  function SortedDistinct<K(==,!new)>(lt: (K, K) -> bool, s: seq<K>): (r: seq<K>)
    requires IsStrictTotalOrder(lt)
    ensures SortedBy(lt, r)
    ensures forall x :: x in r <==> x in s
  {
    if s == [] then []
    else
      var init := s[..|s| - 1];
      assert s == init + [s[|s| - 1]];
      InsertDistinct(lt, s[|s| - 1], SortedDistinct(lt, init))
  }

  /** Joining two sorted lists, every element of the first below every element of the second, stays sorted. */
  lemma SortedConcat<K>(lt: (K, K) -> bool, a: seq<K>, b: seq<K>)
    requires SortedBy(lt, a) && SortedBy(lt, b)
    requires forall x, y :: x in a && y in b ==> lt(x, y)
    ensures SortedBy(lt, a + b)
  {
    var c := a + b;
    forall i, j | 0 <= i < j < |c| ensures lt(c[i], c[j]) {
      if j < |a| {
        assert c[i] == a[i] && c[j] == a[j];
      } else if i >= |a| {
        assert c[i] == b[i - |a|] && c[j] == b[j - |a|];
      } else {
        assert c[i] == a[i] && c[j] == b[j - |a|];
      }
    }
  }

  ghost predicate NonDecreasing(s: seq<int>)
  {
    forall i, j :: 0 <= i < j < |s| ==> s[i] <= s[j]
  }

  function InsertInt(x: int, s: seq<int>): (r: seq<int>)
    requires NonDecreasing(s)
    ensures NonDecreasing(r)
    ensures multiset(r) == multiset(s) + multiset{x}
  {
    if s == [] || x <= s[0] then [x] + s
    else
      var tail := InsertInt(x, s[1..]);
      LowerBoundOfInsert(s[0], x, s[1..], tail);
      assert multiset([s[0]] + tail) == multiset{s[0]} + multiset(tail);
      assert s == [s[0]] + s[1..];
      [s[0]] + tail
  }

  lemma LowerBoundOfInsert(lo: int, x: int, s: seq<int>, tail: seq<int>)
    requires lo <= x && NonDecreasing(tail)
    requires forall y :: y in s ==> lo <= y
    requires multiset(tail) == multiset(s) + multiset{x}
    ensures NonDecreasing([lo] + tail)
  {
    var r := [lo] + tail;
    forall i, j | 0 <= i < j < |r| ensures r[i] <= r[j] {
      if i == 0 {
        var y := tail[j - 1];
        assert r[i] == lo && r[j] == y;
        assert y in multiset(tail);
        if y != x {
          assert y in multiset(s);
          assert y in s;
        }
      } else {
        assert r[i] == tail[i - 1] && r[j] == tail[j - 1];
      }
    }
  }

  /** Ascending sort of timestamps (insertion sort). */
  function SortInts(s: seq<int>): (r: seq<int>)
    ensures NonDecreasing(r)
    ensures multiset(r) == multiset(s)
  {
    if s == [] then []
    else
      assert s == [s[0]] + s[1..];
      InsertInt(s[0], SortInts(s[1..]))
  }

  lemma HeadIsLeast(s: seq<int>)
    requires NonDecreasing(s) && s != []
    ensures forall y :: y in multiset(s) ==> s[0] <= y
  {
    forall y | y in multiset(s) ensures s[0] <= y {
      assert y in s;
    }
  }

  lemma MultisetOfTail<T>(s: seq<T>)
    requires s != []
    ensures multiset(s[1..]) == multiset(s) - multiset{s[0]}
  {
    assert s == [s[0]] + s[1..];
  }

  /** A sorted arrangement of a multiset is unique. */
  lemma {:induction false} SortedPermutationsEqual(a: seq<int>, b: seq<int>)
    requires NonDecreasing(a) && NonDecreasing(b)
    requires multiset(a) == multiset(b)
    ensures a == b
  {
    if a == [] || b == [] {
      assert |multiset(a)| == |a| && |multiset(b)| == |b|;
    } else {
      assert a[0] == b[0] by {
        HeadIsLeast(a);
        HeadIsLeast(b);
        assert a[0] in multiset(b) && b[0] in multiset(a);
      }
      assert multiset(a[1..]) == multiset(b[1..]) by {
        MultisetOfTail(a);
        MultisetOfTail(b);
      }
      SortedPermutationsEqual(a[1..], b[1..]);
      assert a == [a[0]] + a[1..] && b == [b[0]] + b[1..];
    }
  }

  function MinOf(s: seq<int>): (m: int)
    requires s != []
    ensures m in s
    ensures forall x :: x in s ==> m <= x
  {
    if |s| == 1 then s[0]
    else
      var rest := MinOf(s[1..]);
      assert s == [s[0]] + s[1..];
      if s[0] <= rest then s[0] else rest
  }

  function MaxOf(s: seq<int>): (m: int)
    requires s != []
    ensures m in s
    ensures forall x :: x in s ==> x <= m
  {
    if |s| == 1 then s[0]
    else
      var rest := MaxOf(s[1..]);
      assert s == [s[0]] + s[1..];
      if s[0] >= rest then s[0] else rest
  }

  function SumOf(s: seq<int>): int
  {
    if s == [] then 0 else s[0] + SumOf(s[1..])
  }

  /** The lists `f` gives for the elements of `xs`, concatenated in order. */
  function ConcatMap<A, B>(f: A -> seq<B>, xs: seq<A>): seq<B>
  {
    if xs == [] then [] else ConcatMap(f, xs[..|xs| - 1]) + f(xs[|xs| - 1])
  }

  lemma {:induction false} ConcatMapMember<A, B>(f: A -> seq<B>, xs: seq<A>, y: B)
    ensures y in ConcatMap(f, xs) <==> exists i :: 0 <= i < |xs| && y in f(xs[i])
  {
    if xs != [] {
      var init, n := xs[..|xs| - 1], |xs| - 1;
      ConcatMapMember(f, init, y);
      if y in ConcatMap(f, init) {
        var i :| 0 <= i < |init| && y in f(init[i]);
        assert init[i] == xs[i];
      }
      if exists i :: 0 <= i < |xs| && y in f(xs[i]) {
        var i :| 0 <= i < |xs| && y in f(xs[i]);
        if i < n {
          assert init[i] == xs[i];
        }
      }
    }
  }

  // ---------------------------------------------------------------------
  // Sorting records on a key
  // ---------------------------------------------------------------------

  /** The keys of `s` ascend strictly under `lt`. */
  ghost predicate SortedOn<T, K>(key: T -> K, lt: (K, K) -> bool, s: seq<T>)
  {
    forall i, j :: 0 <= i < j < |s| ==> lt(key(s[i]), key(s[j]))
  }

  /** No two elements of `s` share a key. */
  ghost predicate DistinctKeys<T, K>(key: T -> K, s: seq<T>)
  {
    forall i, j :: 0 <= i < j < |s| ==> key(s[i]) != key(s[j])
  }

  lemma SortedOnCons<T, K>(key: T -> K, lt: (K, K) -> bool, h: T, t: seq<T>)
    requires SortedOn(key, lt, t)
    requires forall y :: y in t ==> lt(key(h), key(y))
    ensures SortedOn(key, lt, [h] + t)
  {
    var r := [h] + t;
    forall i, j | 0 <= i < j < |r| ensures lt(key(r[i]), key(r[j])) {
      assert r[j] == t[j - 1];
      if i > 0 {
        assert r[i] == t[i - 1];
      }
    }
  }

  /** Inserts `x`, whose key is new, into a list sorted on the key. */
  function InsertOn<T, K(!new)>(key: T -> K, lt: (K, K) -> bool, x: T, s: seq<T>): (r: seq<T>)
    requires IsStrictTotalOrder(lt) && SortedOn(key, lt, s)
    requires forall y :: y in s ==> key(y) != key(x)
    ensures SortedOn(key, lt, r)
    ensures multiset(r) == multiset(s) + multiset{x}
  {
    if s == [] || lt(key(x), key(s[0])) then
      SortedOnCons(key, lt, x, s);
      [x] + s
    else
      assert s == [s[0]] + s[1..];
      var tail := InsertOn(key, lt, x, s[1..]);
      forall y | y in tail ensures lt(key(s[0]), key(y)) {
        assert y in multiset(tail);
        if y != x {
          assert y in multiset(s[1..]);
          assert y in s[1..];
        }
      }
      SortedOnCons(key, lt, s[0], tail);
      [s[0]] + tail
  }

  /** A sort on a key that no two elements share: the outcome of any sort, stable or not. */
  function SortOn<T, K(!new)>(key: T -> K, lt: (K, K) -> bool, s: seq<T>): (r: seq<T>)
    requires IsStrictTotalOrder(lt) && DistinctKeys(key, s)
    ensures SortedOn(key, lt, r)
    ensures multiset(r) == multiset(s)
  {
    if s == [] then []
    else
      assert s == [s[0]] + s[1..];
      var rest := SortOn(key, lt, s[1..]);
      forall y | y in rest ensures key(y) != key(s[0]) {
        assert y in multiset(s[1..]);
        var j :| 0 <= j < |s[1..]| && s[1..][j] == y;
        assert s[j + 1] == y;
      }
      InsertOn(key, lt, s[0], rest)
  }

  lemma SortedOnIsDistinct<T, K(!new)>(key: T -> K, lt: (K, K) -> bool, s: seq<T>)
    requires IsStrictTotalOrder(lt) && SortedOn(key, lt, s)
    ensures DistinctKeys(key, s)
  {
    forall i, j | 0 <= i < j < |s| ensures key(s[i]) != key(s[j]) {
      assert lt(key(s[i]), key(s[j]));
    }
  }

  lemma SameElementsBothEmpty<T>(a: seq<T>, b: seq<T>)
    requires forall x :: x in a <==> x in b
    ensures a == [] <==> b == []
  {
    if a != [] {
      assert a[0] in b;
    }
    if b != [] {
      assert b[0] in a;
    }
  }

  /** Two lists sorted on the key that hold the same elements are the same list. */
  lemma {:induction false} SortedOnDetermined<T, K(!new)>(key: T -> K, lt: (K, K) -> bool, a: seq<T>, b: seq<T>)
    requires IsStrictTotalOrder(lt)
    requires SortedOn(key, lt, a) && SortedOn(key, lt, b)
    requires forall x :: x in a <==> x in b
    ensures a == b
  {
    SameElementsBothEmpty(a, b);
    if a != [] {
      assert a[0] in b && b[0] in a;
      var k :| 0 <= k < |a| && a[k] == b[0];
      var m :| 0 <= m < |b| && b[m] == a[0];
      assert k == 0;
      var a', b' := a[1..], b[1..];
      forall x ensures x in a' <==> x in b' {
        if x in a' {
          var i :| 0 <= i < |a'| && a'[i] == x;
          assert lt(key(a[0]), key(a[i + 1]));
          assert x in b && x != b[0];
        }
        if x in b' {
          var i :| 0 <= i < |b'| && b'[i] == x;
          assert lt(key(b[0]), key(b[i + 1]));
          assert x in a && x != a[0];
        }
      }
      assert SortedOn(key, lt, a') by {
        forall i, j | 0 <= i < j < |a'| ensures lt(key(a'[i]), key(a'[j])) {
          assert a'[i] == a[i + 1] && a'[j] == a[j + 1];
        }
      }
      assert SortedOn(key, lt, b') by {
        forall i, j | 0 <= i < j < |b'| ensures lt(key(b'[i]), key(b'[j])) {
          assert b'[i] == b[i + 1] && b'[j] == b[j + 1];
        }
      }
      SortedOnDetermined(key, lt, a', b');
      assert a == [a[0]] + a' && b == [b[0]] + b';
    }
  }
}
