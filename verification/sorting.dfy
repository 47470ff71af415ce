/** The shape every listing query has: keep the rows a predicate admits, order
    them by a key (ORDER BY), and keep the first n (LIMIT). The database may
    return rows with equal keys in any order, so a query's answer is specified
    as "a top-n selection" (`IsTopN`) rather than one fixed sequence, and the
    insertion sort below is one answer that meets it. */
module Sorting {
  import opened Ordering

  /** Rows appear in key order; rows with equal keys may appear in any order. */
  predicate Sorted<T>(s: seq<T>, key: T -> Key) {
    forall i, j :: 0 <= i < j < |s| ==> Le(key(s[i]), key(s[j]))
  }

  /** WHERE: the rows `keep` admits, in their original order. */
  function Filter<T(!new)>(s: seq<T>, keep: T -> bool): (r: seq<T>)
    ensures |r| <= |s|
    ensures forall k :: 0 <= k < |r| ==> keep(r[k])
    ensures forall x :: multiset(r)[x] == if keep(x) then multiset(s)[x] else 0
  {
    if |s| == 0 then []
    else
      assert s == [s[0]] + s[1..];
      if keep(s[0]) then [s[0]] + Filter(s[1..], keep) else Filter(s[1..], keep)
  }

  lemma SortedCons<T>(h: T, t: seq<T>, key: T -> Key)
    requires Sorted(t, key)
    requires forall k :: 0 <= k < |t| ==> Le(key(h), key(t[k]))
    ensures Sorted([h] + t, key)
  {
    var s := [h] + t;
    forall i, j | 0 <= i < j < |s| ensures Le(key(s[i]), key(s[j])) {
      if i == 0 {
        assert s[j] == t[j - 1];
      } else {
        assert s[i] == t[i - 1] && s[j] == t[j - 1];
      }
    }
  }

  /** Places `x` into an already ordered sequence. */
  function Insert<T>(x: T, s: seq<T>, key: T -> Key): (r: seq<T>)
    requires Sorted(s, key)
    ensures Sorted(r, key)
    ensures multiset(r) == multiset(s) + multiset{x}
    ensures |r| == |s| + 1
  {
    if |s| == 0 then [x]
    else if Le(key(x), key(s[0])) then
      InsertFront(x, s, key);
      [x] + s
    else
      assert s == [s[0]] + s[1..];
      KeyLeTotal(key(x), key(s[0]));
      var rest := Insert(x, s[1..], key);
      InsertBehind(x, s, rest, key);
      [s[0]] + rest
  }

  lemma InsertFront<T>(x: T, s: seq<T>, key: T -> Key)
    requires Sorted(s, key) && |s| > 0 && Le(key(x), key(s[0]))
    ensures Sorted([x] + s, key)
    ensures multiset([x] + s) == multiset(s) + multiset{x}
  {
    forall k | 0 <= k < |s| ensures Le(key(x), key(s[k])) {
      if k > 0 { KeyCmpTrans(key(x), key(s[0]), key(s[k])); }
    }
    SortedCons(x, s, key);
  }

  lemma InsertBehind<T>(x: T, s: seq<T>, rest: seq<T>, key: T -> Key)
    requires Sorted(s, key) && |s| > 0 && Le(key(s[0]), key(x))
    requires Sorted(rest, key) && multiset(rest) == multiset(s[1..]) + multiset{x}
    ensures Sorted([s[0]] + rest, key)
    ensures multiset([s[0]] + rest) == multiset(s) + multiset{x}
  {
    forall k | 0 <= k < |rest| ensures Le(key(s[0]), key(rest[k])) {
      assert rest[k] in multiset(rest);
      if rest[k] != x {
        assert rest[k] in multiset(s[1..]);
        var j :| 0 <= j < |s[1..]| && s[1..][j] == rest[k];
        assert s[j + 1] == rest[k];
      }
    }
    SortedCons(s[0], rest, key);
    assert s == [s[0]] + s[1..];
  }

  /** ORDER BY: a permutation of `s` in key order. */
  function SortBy<T>(s: seq<T>, key: T -> Key): (r: seq<T>)
    ensures Sorted(r, key)
    ensures multiset(r) == multiset(s)
    ensures |r| == |s|
  {
    if |s| == 0 then []
    else
      assert s == [s[0]] + s[1..];
      Insert(s[0], SortBy(s[1..], key), key)
  }

  /** How many rows LIMIT n keeps out of `available`: a negative limit keeps all. */
  function LimitCount(n: int, available: nat): (c: nat)
    ensures c <= available
    ensures 0 <= n ==> c <= n
    ensures n < 0 || available <= n ==> c == available
  {
    if 0 <= n < available then n else available
  }

  /** LIMIT n: a prefix of `s`. */
  function Take<T>(s: seq<T>, n: int): (r: seq<T>)
    ensures r <= s
    ensures |r| == LimitCount(n, |s|)
  {
    s[..LimitCount(n, |s|)]
  }

  /** `r` is a correct answer to "ORDER BY key LIMIT n" over `pool`: rows of the
      pool, as many as the limit allows, in key order, and no row left out
      sorts strictly before a row kept. */
  ghost predicate IsTopN<T(!new)>(pool: seq<T>, n: int, key: T -> Key, r: seq<T>) {
    && multiset(r) <= multiset(pool)
    && |r| == LimitCount(n, |pool|)
    && Sorted(r, key)
    && forall x, y :: x in multiset(pool) - multiset(r) && y in r ==> Le(key(y), key(x))
  }

  /** Sort, then take the first n: one answer to the query. */
  function SelectTop<T(!new)>(pool: seq<T>, n: int, key: T -> Key): (r: seq<T>)
    ensures IsTopN(pool, n, key, r)
  {
    var sorted := SortBy(pool, key);
    var r := Take(sorted, n);
    var m := |r|;
    assert sorted == r + sorted[m..];
    assert multiset(sorted) == multiset(r) + multiset(sorted[m..]);
    assert Sorted(r, key) by {
      forall i, j | 0 <= i < j < |r| ensures Le(key(r[i]), key(r[j])) {
        assert r[i] == sorted[i] && r[j] == sorted[j];
      }
    }
    assert forall x, y :: x in multiset(pool) - multiset(r) && y in r ==> Le(key(y), key(x)) by {
      forall x, y | x in multiset(pool) - multiset(r) && y in r ensures Le(key(y), key(x)) {
        assert x in multiset(sorted[m..]);
        var j :| 0 <= j < |sorted[m..]| && sorted[m..][j] == x;
        var i :| 0 <= i < m && r[i] == y;
        assert sorted[i] == y && sorted[m + j] == x;
      }
    }
    r
  }

  /** A query that keeps every row (no limit) returns a permutation of the pool. */
  lemma SelectAllIsPermutation<T(!new)>(pool: seq<T>, key: T -> Key)
    ensures multiset(SelectTop(pool, -1, key)) == multiset(pool)
  {
    var r := SelectTop(pool, -1, key);
    assert |r| == |pool|;
    assert multiset(r) <= multiset(pool);
    assert |multiset(r)| == |multiset(pool)|;
    MultisetSubsetEqualSize(multiset(r), multiset(pool));
  }

  /** A top-n answer holds only rows of the pool. */
  lemma TopNMembers<T(!new)>(pool: seq<T>, n: int, key: T -> Key, r: seq<T>)
    requires IsTopN(pool, n, key, r)
    ensures forall x :: x in r ==> x in pool
  {
    forall x | x in r ensures x in pool {
      assert x in multiset(r);
    }
  }

  /** Permutations hold the same elements. */
  lemma PermutationMembers<T>(a: seq<T>, b: seq<T>)
    requires multiset(a) == multiset(b)
    ensures forall x :: x in a <==> x in b
  {
    forall x ensures x in a <==> x in b {
      assert x in a <==> x in multiset(a);
      assert x in b <==> x in multiset(b);
    }
  }

  lemma MultisetSubsetEqualSize<T>(a: multiset<T>, b: multiset<T>)
    requires a <= b && |a| == |b|
    ensures a == b
  {
    var d := b - a;
    assert b == a + d;
    assert |d| == 0;
  }
}
