/**
 * Last-wins deduplication by event id: sort the occurrences by timestamp,
 * then drop every occurrence of an id but the last one. Both pipelines run
 * this step; it is generic in the event type, which supplies its id and its
 * timestamp.
 *
 * The sort the pipelines use is not stable, so among occurrences that share
 * an id and the largest timestamp the survivor is not fixed. This model fixes
 * it as the one that comes last in the input (what a stable sort gives), and
 * its contract promises only what holds under any tie-break: one occurrence
 * per id, and that occurrence has the largest timestamp of its id.
 */
module Dedup {
  import Order

  /** Occurrence `j` would be kept after occurrence `i`: same id, later in (ts, position). */
  predicate Beats<T, K(==)>(s: seq<T>, id: T -> K, ts: T -> int, j: int, i: int)
    requires 0 <= i < |s| && 0 <= j < |s|
  {
    id(s[j]) == id(s[i]) && (ts(s[j]) > ts(s[i]) || (ts(s[j]) == ts(s[i]) && j > i))
  }

  /** Occurrence `i` is the one kept for its id. */
  predicate Survives<T, K(==)>(s: seq<T>, id: T -> K, ts: T -> int, i: int)
    requires 0 <= i < |s|
  {
    forall j :: 0 <= j < |s| ==> !Beats(s, id, ts, j, i)
  }

  /** No two elements share an id. */
  ghost predicate UniqueIds<T, K>(r: seq<T>, id: T -> K)
  {
    forall p, q :: 0 <= p < q < |r| ==> id(r[p]) != id(r[q])
  }

  /** The surviving occurrences among the first `n`, in input order. */
  function KeepUpTo<T, K(==)>(s: seq<T>, id: T -> K, ts: T -> int, n: nat): seq<T>
    requires n <= |s|
  {
    if n == 0 then []
    else if Survives(s, id, ts, n - 1) then KeepUpTo(s, id, ts, n - 1) + [s[n - 1]]
    else KeepUpTo(s, id, ts, n - 1)
  }

  /** What survives among the first `n` is exactly the surviving occurrences, one per id. */
  lemma {:induction false} KeepUpToSurvivors<T, K>(s: seq<T>, id: T -> K, ts: T -> int, n: nat)
    requires n <= |s|
    ensures forall x :: x in KeepUpTo(s, id, ts, n) ==>
      exists i :: 0 <= i < n && Survives(s, id, ts, i) && s[i] == x
    ensures forall i :: 0 <= i < n && Survives(s, id, ts, i) ==> s[i] in KeepUpTo(s, id, ts, n)
    ensures UniqueIds(KeepUpTo(s, id, ts, n), id)
    ensures |KeepUpTo(s, id, ts, n)| <= n
  {
    if n > 0 {
      KeepUpToSurvivors(s, id, ts, n - 1);
      var prev := KeepUpTo(s, id, ts, n - 1);
      var last := n - 1;
      if Survives(s, id, ts, last) {
        forall x | x in prev ensures id(x) != id(s[last]) {
          var i :| 0 <= i < last && Survives(s, id, ts, i) && s[i] == x;
          assert !Beats(s, id, ts, last, i) && !Beats(s, id, ts, i, last);
        }
        var r := prev + [s[last]];
        forall p, q | 0 <= p < q < |r| ensures id(r[p]) != id(r[q]) {
          assert r[p] == prev[p] && prev[p] in prev;
        }
      }
    }
  }

  /**
   * `sort_values(ts).drop_duplicates(event_id, keep='last')`: the kept events
   * are listed in input order rather than in `ts` order, which nothing
   * downstream observes.
   */
  function KeepLatest<T, K(==)>(s: seq<T>, id: T -> K, ts: T -> int): (r: seq<T>)
    ensures |r| <= |s|
    ensures forall x :: x in r ==> x in s
    ensures UniqueIds(r, id)
    ensures forall x, y :: x in r && y in s && id(y) == id(x) ==> ts(y) <= ts(x)
  {
    var r := KeepUpTo(s, id, ts, |s|);
    KeepUpToSurvivors(s, id, ts, |s|);
    assert forall x, y :: x in r && y in s && id(y) == id(x) ==> ts(y) <= ts(x) by {
      forall x, y | x in r && y in s && id(y) == id(x) ensures ts(y) <= ts(x) {
        var i :| 0 <= i < |s| && Survives(s, id, ts, i) && s[i] == x;
        var j :| 0 <= j < |s| && s[j] == y;
        assert !Beats(s, id, ts, j, i);
      }
    }
    r
  }

  /** Index of the occurrence of `key` among the first `n` that is latest in (ts, position), or -1. */
  function LatestIndex<T, K(==)>(s: seq<T>, id: T -> K, ts: T -> int, key: K, n: nat): (w: int)
    requires n <= |s|
    ensures -1 <= w < n
    ensures w >= 0 ==> id(s[w]) == key
    ensures w >= 0 ==> forall j :: 0 <= j < n ==> !Beats(s, id, ts, j, w)
    ensures w < 0 ==> forall j :: 0 <= j < n ==> id(s[j]) != key
  {
    if n == 0 then -1
    else
      var w := LatestIndex(s, id, ts, key, n - 1);
      if id(s[n - 1]) != key then w
      else if w < 0 || ts(s[n - 1]) >= ts(s[w]) then
        var last := n - 1;
        assert forall j :: 0 <= j < n ==> !Beats(s, id, ts, j, last) by {
          forall j | 0 <= j < n ensures !Beats(s, id, ts, j, last) {
            if j < last && id(s[j]) == key {
              assert !Beats(s, id, ts, j, w);
            }
          }
        }
        last
      else w
  }

  /** No event id is lost: every id of the input has its kept occurrence. */
  lemma KeepLatestCovers<T, K>(s: seq<T>, id: T -> K, ts: T -> int, y: T)
    requires y in s
    ensures exists x :: x in KeepLatest(s, id, ts) && id(x) == id(y)
  {
    var w := LatestIndex(s, id, ts, id(y), |s|);
    assert w >= 0;
    assert Survives(s, id, ts, w);
    KeepUpToSurvivors(s, id, ts, |s|);
    assert s[w] in KeepLatest(s, id, ts);
  }

  lemma FirstCopyLoses<T, K>(s: seq<T>, id: T -> K, ts: T -> int, i: nat)
    requires i < |s|
    ensures !Survives(s + s, id, ts, i)
  {
    assert Beats(s + s, id, ts, |s| + i, i);
  }

  lemma SecondCopySurvives<T, K>(s: seq<T>, id: T -> K, ts: T -> int, i: nat)
    requires i < |s|
    ensures Survives(s + s, id, ts, |s| + i) == Survives(s, id, ts, i)
  {
    var d, n := s + s, |s|;
    var k := n + i;
    if Survives(s, id, ts, i) {
      forall j | 0 <= j < |d| ensures !Beats(d, id, ts, j, k) {
        if j < n {
          assert !Beats(s, id, ts, j, i);
        } else {
          assert !Beats(s, id, ts, j - n, i);
        }
      }
    } else {
      var j :| 0 <= j < n && Beats(s, id, ts, j, i);
      assert Beats(d, id, ts, n + j, k);
    }
  }

  /** Re-sending a whole batch changes nothing: the second copy wins every tie with the first. */
  lemma KeepLatestResent<T, K>(s: seq<T>, id: T -> K, ts: T -> int)
    ensures KeepLatest(s + s, id, ts) == KeepLatest(s, id, ts)
  {
    KeepUpToFirstCopy(s, id, ts, |s|);
    KeepUpToSecondCopy(s, id, ts, |s|);
  }

  /**
   * What re-sending a batch preserves whatever the tie-break among equal
   * latest times: the proof uses only `KeepLatest`'s contract, so both results
   * keep the same event ids, each with the same latest time.
   */
  lemma KeepLatestResentLatestTimes<T, K>(s: seq<T>, id: T -> K, ts: T -> int)
    ensures forall x :: x in KeepLatest(s + s, id, ts) ==>
      exists y :: y in KeepLatest(s, id, ts) && id(y) == id(x) && ts(y) == ts(x)
    ensures forall y :: y in KeepLatest(s, id, ts) ==>
      exists x :: x in KeepLatest(s + s, id, ts) && id(x) == id(y) && ts(x) == ts(y)
  {
    var once, twice := KeepLatest(s, id, ts), KeepLatest(s + s, id, ts);
    forall x | x in twice
      ensures exists y :: y in once && id(y) == id(x) && ts(y) == ts(x)
    {
      assert x in s;
      KeepLatestCovers(s, id, ts, x);
      var y :| y in once && id(y) == id(x);
      assert y in s + s;
    }
    forall y | y in once
      ensures exists x :: x in twice && id(x) == id(y) && ts(x) == ts(y)
    {
      assert y in s + s;
      KeepLatestCovers(s + s, id, ts, y);
      var x :| x in twice && id(x) == id(y);
      assert x in s;
    }
  }

  lemma {:induction false} KeepUpToFirstCopy<T, K>(s: seq<T>, id: T -> K, ts: T -> int, k: nat)
    requires k <= |s|
    ensures KeepUpTo(s + s, id, ts, k) == []
  {
    if k > 0 {
      KeepUpToFirstCopy(s, id, ts, k - 1);
      FirstCopyLoses(s, id, ts, k - 1);
    }
  }

  lemma {:induction false} KeepUpToSecondCopy<T, K>(s: seq<T>, id: T -> K, ts: T -> int, k: nat)
    requires k <= |s|
    ensures KeepUpTo(s + s, id, ts, |s| + k) == KeepUpTo(s, id, ts, k)
  {
    if k == 0 {
      KeepUpToFirstCopy(s, id, ts, |s|);
    } else {
      KeepUpToSecondCopy(s, id, ts, k - 1);
      SecondCopySurvives(s, id, ts, k - 1);
      assert (s + s)[|s| + k - 1] == s[k - 1];
    }
  }

  // ---------------------------------------------------------------------
  // Keeping the last row of each key
  // ---------------------------------------------------------------------

  /** Some element of `s` has key `k`. */
  predicate KeyOccurs<T, K(==)>(key: T -> K, k: K, s: seq<T>)
  {
    exists i :: 0 <= i < |s| && key(s[i]) == k
  }

  /**
   * `drop_duplicates(subset=key, keep='last')`: an element survives when no
   * later element has its key; survivors keep their order.
   */
  function KeepLast<T, K(==)>(key: T -> K, s: seq<T>): seq<T>
  {
    if s == [] then []
    else if KeyOccurs(key, key(s[0]), s[1..]) then KeepLast(key, s[1..])
    else [s[0]] + KeepLast(key, s[1..])
  }

  /** The table `s` describes: each key maps to its last row. */
  function AsMap<T, K>(key: T -> K, s: seq<T>): map<K, T>
  {
    if s == [] then map[] else map[key(s[0]) := s[0]] + AsMap(key, s[1..])
  }

  lemma {:induction false} AsMapDomain<T, K>(key: T -> K, s: seq<T>, k: K)
    ensures k in AsMap(key, s) <==> exists y :: y in s && key(y) == k
    ensures k in AsMap(key, s) ==> AsMap(key, s)[k] in s && key(AsMap(key, s)[k]) == k
  {
    if s != [] {
      AsMapDomain(key, s[1..], k);
      assert s == [s[0]] + s[1..];
    }
  }

  /** Appending rows overrides the rows of the same keys. */
  lemma {:induction false} AsMapAppend<T, K>(key: T -> K, a: seq<T>, b: seq<T>)
    ensures AsMap(key, a + b) == AsMap(key, a) + AsMap(key, b)
  {
    if a == [] {
      assert a + b == b;
    } else {
      assert (a + b)[1..] == a[1..] + b;
      AsMapAppend(key, a[1..], b);
    }
  }

  /** Of a list without repeated keys, the map holds exactly its elements. */
  lemma {:induction false} DistinctKeysAsMap<T, K>(key: T -> K, s: seq<T>, x: T)
    requires Order.DistinctKeys(key, s)
    ensures x in s <==> key(x) in AsMap(key, s) && AsMap(key, s)[key(x)] == x
  {
    if s != [] {
      var rest := s[1..];
      assert Order.DistinctKeys(key, rest) by {
        forall i, j | 0 <= i < j < |rest| ensures key(rest[i]) != key(rest[j]) {
          assert rest[i] == s[i + 1] && rest[j] == s[j + 1];
        }
      }
      DistinctKeysAsMap(key, rest, x);
      AsMapDomain(key, rest, key(s[0]));
      assert s == [s[0]] + rest;
    }
  }

  /**
   * The last-wins dedup keeps the table: its map is the input's, no key
   * repeats, and every survivor comes from the input.
   */
  lemma {:induction false} KeepLastFacts<T, K>(key: T -> K, s: seq<T>)
    ensures AsMap(key, KeepLast(key, s)) == AsMap(key, s)
    ensures Order.DistinctKeys(key, KeepLast(key, s))
    ensures forall x :: x in KeepLast(key, s) ==> x in s
  {
    if s != [] {
      var rest := s[1..];
      KeepLastFacts(key, rest);
      AsMapDomain(key, rest, key(s[0]));
      var kept := KeepLast(key, rest);
      if !KeyOccurs(key, key(s[0]), rest) {
        var r := [s[0]] + kept;
        forall i, j | 0 <= i < j < |r| ensures key(r[i]) != key(r[j]) {
          assert r[j] == kept[j - 1] && r[j] in rest;
          if i > 0 {
            assert r[i] == kept[i - 1];
          }
        }
      }
      assert s == [s[0]] + rest;
    }
  }

  /** Two lists without repeated keys and with the same elements describe the same table. */
  lemma SameElementsSameMap<T, K>(key: T -> K, a: seq<T>, b: seq<T>)
    requires Order.DistinctKeys(key, a) && Order.DistinctKeys(key, b)
    requires forall x :: x in a <==> x in b
    ensures AsMap(key, a) == AsMap(key, b)
  {
    var ma, mb := AsMap(key, a), AsMap(key, b);
    forall k | k in mb ensures k in ma {
      AsMapDomain(key, a, k);
      AsMapDomain(key, b, k);
    }
    forall k | k in ma ensures k in mb && ma[k] == mb[k] {
      AsMapDomain(key, a, k);
      DistinctKeysAsMap(key, b, ma[k]);
    }
  }
}
