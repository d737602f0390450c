/**
 * The building blocks of the store's queries, over a table held as a
 * sequence of rows: `where` (Filter), `count` (Count), `orderBy` (SortBy),
 * `take` (Take) and `distinct` (DistinctBy).
 */
module Query {

  /** `le` orders every pair of rows and is transitive: what an `orderBy`
      over one or more columns is. */
  ghost predicate TotalPreorder<T(!new)>(le: (T, T) -> bool) {
    && (forall a, b :: le(a, b) || le(b, a))
    && (forall a, b, c :: le(a, b) && le(b, c) ==> le(a, c))
  }

  predicate SortedBy<T>(s: seq<T>, le: (T, T) -> bool) {
    forall i, j :: 0 <= i < j < |s| ==> le(s[i], s[j])
  }

  /** `where`: the rows satisfying `p`, in table order. */
  function Filter<T(!new)>(s: seq<T>, p: T -> bool): (r: seq<T>)
    ensures |r| <= |s|
    ensures forall x :: x in r <==> x in s && p(x)
  {
    if s == [] then []
    else
      var rest := Filter(s[1..], p);
      assert s == [s[0]] + s[1..];
      if p(s[0]) then [s[0]] + rest else rest
  }

  /** Filtering a table with one more row at its end. */
  lemma {:induction false} FilterSnoc<T(!new)>(s: seq<T>, x: T, p: T -> bool)
    ensures Filter(s + [x], p) == Filter(s, p) + (if p(x) then [x] else [])
  {
    var t := s + [x];
    if s == [] {
      assert t == [x] && t[1..] == [];
      assert Filter(t, p) == (if p(x) then [x] else []) + Filter(t[1..], p);
    } else {
      assert t[0] == s[0] && t[1..] == s[1..] + [x];
      FilterSnoc(s[1..], x, p);
      var f := Filter(s[1..], p);
      var e := if p(x) then [x] else [];
      var a := if p(s[0]) then [s[0]] else [];
      assert Filter(t, p) == a + (f + e);
      assert Filter(s, p) == a + f;
      ConcatAssoc(a, f, e);
    }
  }

  /** Filtering by `q` first changes nothing when `p` implies `q`. */
  lemma {:induction false} FilterOfFilter<T(!new)>(s: seq<T>, p: T -> bool, q: T -> bool)
    requires forall x :: p(x) ==> q(x)
    ensures Filter(Filter(s, q), p) == Filter(s, p)
  {
    if s != [] {
      FilterOfFilter(s[1..], p, q);
      var fq := Filter(s[1..], q);
      if q(s[0]) {
        assert Filter(s, q) == [s[0]] + fq;
        assert ([s[0]] + fq)[1..] == fq;
      } else {
        assert Filter(s, q) == fq;
      }
    }
  }

  lemma ConcatAssoc<T>(a: seq<T>, b: seq<T>, c: seq<T>)
    ensures a + (b + c) == (a + b) + c
  {
  }

  /** `count`: how many rows satisfy `p`. */
  function Count<T(!new)>(s: seq<T>, p: T -> bool): nat {
    |Filter(s, p)|
  }

  /** A filter whose predicate holds of every row keeps the whole table. */
  lemma {:induction false} FilterAll<T(!new)>(s: seq<T>, p: T -> bool)
    requires forall x :: x in s ==> p(x)
    ensures Filter(s, p) == s
  {
    if s != [] {
      FilterAll(s[1..], p);
    }
  }

  /** A filter whose predicate holds of no row keeps nothing. */
  lemma FilterNone<T(!new)>(s: seq<T>, p: T -> bool)
    requires forall x :: x in s ==> !p(x)
    ensures Filter(s, p) == []
  {
    if Filter(s, p) != [] {
      assert Filter(s, p)[0] in Filter(s, p);
    }
  }

  /** Two disjoint filters that both select inside a third count no more
      than it. */
  lemma {:induction false} CountDisjointBound<T(!new)>(s: seq<T>, p: T -> bool, q: T -> bool, all: T -> bool)
    requires forall x :: p(x) ==> all(x)
    requires forall x :: q(x) ==> all(x)
    requires forall x :: !(p(x) && q(x))
    ensures Count(s, p) + Count(s, q) <= Count(s, all)
  {
    if s != [] {
      CountDisjointBound(s[1..], p, q, all);
    }
  }

  /** Filtering keeps the order of the rows it keeps. */
  lemma {:induction false} FilterSorted<T(!new)>(s: seq<T>, p: T -> bool, le: (T, T) -> bool)
    requires SortedBy(s, le)
    ensures SortedBy(Filter(s, p), le)
  {
    if s != [] {
      var t := s[1..];
      FilterSorted(t, p, le);
      var rest := Filter(t, p);
      forall x | x in rest ensures le(s[0], x) {
        var k :| 0 <= k < |t| && t[k] == x;
        assert s[k + 1] == x;
      }
      if p(s[0]) {
        ConsSorted(s[0], rest, le);
      }
    }
  }

  /** A row that precedes every row of an ordered table can go in front. */
  lemma ConsSorted<T>(h: T, t: seq<T>, le: (T, T) -> bool)
    requires SortedBy(t, le) && forall x :: x in t ==> le(h, x)
    ensures SortedBy([h] + t, le)
  {
    var r := [h] + t;
    forall i, j | 0 <= i < j < |r| ensures le(r[i], r[j]) {
      assert r[j] == t[j - 1];
      if i == 0 {
        assert t[j - 1] in t;
      } else {
        assert r[i] == t[i - 1];
      }
    }
  }

  /** Two tables whose rows agree, position by position, on whether they
      pass their filters keep as many rows. */
  lemma {:induction false} FilterPointwise<T(!new), U(!new)>(a: seq<T>, p: T -> bool, b: seq<U>, q: U -> bool)
    requires |a| == |b| && forall i :: 0 <= i < |a| ==> p(a[i]) == q(b[i])
    ensures |Filter(a, p)| == |Filter(b, q)|
  {
    if a != [] {
      FilterPointwise(a[1..], p, b[1..], q);
      assert p(a[0]) == q(b[0]);
    }
  }

  /** Inserts `x` into the ordered `s` before the first row it precedes. */
  function Insert<T(!new)>(x: T, s: seq<T>, le: (T, T) -> bool): (r: seq<T>)
    requires TotalPreorder(le) && SortedBy(s, le)
    ensures SortedBy(r, le)
    ensures multiset(r) == multiset(s) + multiset{x}
  {
    if s == [] || le(x, s[0]) then
      InsertFrontSorted(x, s, le);
      [x] + s
    else
      var rest := Insert(x, s[1..], le);
      assert s == [s[0]] + s[1..];
      InsertBehindSorted(x, s, rest, le);
      [s[0]] + rest
  }

  lemma InsertFrontSorted<T(!new)>(x: T, s: seq<T>, le: (T, T) -> bool)
    requires TotalPreorder(le) && SortedBy(s, le)
    requires s == [] || le(x, s[0])
    ensures SortedBy([x] + s, le)
  {
    var r := [x] + s;
    forall i, j | 0 <= i < j < |r| ensures le(r[i], r[j]) {
      if i == 0 && j > 1 {
        assert le(x, s[0]) && le(s[0], s[j - 1]);
      }
    }
  }

  lemma InsertBehindSorted<T(!new)>(x: T, s: seq<T>, rest: seq<T>, le: (T, T) -> bool)
    requires TotalPreorder(le) && SortedBy(s, le) && SortedBy(rest, le)
    requires s != [] && !le(x, s[0])
    requires multiset(rest) == multiset(s[1..]) + multiset{x}
    ensures SortedBy([s[0]] + rest, le)
  {
    var r := [s[0]] + rest;
    forall j | 0 <= j < |rest| ensures le(s[0], rest[j]) {
      assert rest[j] in multiset(rest);
      if rest[j] != x {
        assert rest[j] in multiset(s[1..]);
        var k :| 0 <= k < |s[1..]| && s[1..][k] == rest[j];
        assert s[k + 1] == rest[j];
      }
    }
  }

  /** `orderBy`: the same rows, ordered by `le`. Rows `le` ranks equal keep
      no particular order, as in the store. */
  function SortBy<T(!new)>(s: seq<T>, le: (T, T) -> bool): (r: seq<T>)
    requires TotalPreorder(le)
    ensures SortedBy(r, le)
    ensures multiset(r) == multiset(s)
  {
    if s == [] then []
    else
      assert s == [s[0]] + s[1..];
      Insert(s[0], SortBy(s[1..], le), le)
  }

  /** `take`: at most the first `n` rows. */
  function Take<T>(s: seq<T>, n: nat): (r: seq<T>)
    ensures |r| <= n && |r| <= |s|
    ensures |s| <= n ==> r == s
    ensures n <= |s| ==> |r| == n
    ensures r <= s
  {
    if |s| <= n then s else s[..n]
  }

  /** A prefix holds no row more often than the whole sequence does. */
  lemma PrefixSubMultiset<T>(r: seq<T>, s: seq<T>)
    requires r <= s
    ensures multiset(r) <= multiset(s)
  {
    assert s == r + s[|r|..];
  }

  /** `r` is `s` with some rows left out and the others kept in order. */
  predicate IsSubsequence<T(==)>(r: seq<T>, s: seq<T>)
    decreases |s|
  {
    if r == [] then true
    else if s == [] then false
    else (r[0] == s[0] && IsSubsequence(r[1..], s[1..])) || IsSubsequence(r, s[1..])
  }

  /** A filter keeps the passing rows in table order. */
  lemma {:induction false} FilterIsSubsequence<T(!new)>(s: seq<T>, p: T -> bool)
    ensures IsSubsequence(Filter(s, p), s)
    decreases |s|
  {
    if s != [] {
      FilterIsSubsequence(s[1..], p);
      var rest := Filter(s[1..], p);
      if p(s[0]) {
        assert Filter(s, p) == [s[0]] + rest;
        assert ([s[0]] + rest)[1..] == rest;
      }
    }
  }

  /** A prefix of an ordered sequence is ordered. */
  lemma TakeSorted<T>(s: seq<T>, n: nat, le: (T, T) -> bool)
    requires SortedBy(s, le)
    ensures SortedBy(Take(s, n), le)
  {
  }

  /** `distinct` on one column: the first row for each value of `key`, in
      table order. */
  function DistinctBy<T(!new)>(s: seq<T>, key: T -> int): (r: seq<T>)
    ensures forall i, j :: 0 <= i < j < |r| ==> key(r[i]) != key(r[j])
    ensures forall x :: x in r ==> x in s
    ensures forall x :: x in s ==> exists y :: y in r && key(y) == key(x)
    ensures forall i :: 0 <= i < |r| ==> FirstWithKey(s, key, r[i])
  {
    DistinctFromKeys(s, key, {});
    DistinctFromCovers(s, key, {});
    DistinctFromFirst(s, key, {});
    DistinctFrom(s, key, {})
  }

  /** The rows of `s` whose key is neither in `seen` nor on an earlier row. */
  function DistinctFrom<T(!new)>(s: seq<T>, key: T -> int, seen: set<int>): (r: seq<T>)
    ensures forall x :: x in r ==> x in s && key(x) !in seen
  {
    if s == [] then []
    else
      assert forall x :: x in s[1..] ==> x in s;
      if key(s[0]) in seen then DistinctFrom(s[1..], key, seen)
      else [s[0]] + DistinctFrom(s[1..], key, seen + {key(s[0])})
  }

  lemma {:induction false} DistinctFromKeys<T(!new)>(s: seq<T>, key: T -> int, seen: set<int>)
    ensures forall i, j :: 0 <= i < j < |DistinctFrom(s, key, seen)| ==>
              key(DistinctFrom(s, key, seen)[i]) != key(DistinctFrom(s, key, seen)[j])
  {
    if s != [] {
      var k := key(s[0]);
      if k in seen {
        DistinctFromKeys(s[1..], key, seen);
      } else {
        DistinctFromKeys(s[1..], key, seen + {k});
        var rest := DistinctFrom(s[1..], key, seen + {k});
        assert forall j :: 0 <= j < |rest| ==> rest[j] in rest;
      }
    }
  }

  lemma {:induction false} DistinctFromCovers<T(!new)>(s: seq<T>, key: T -> int, seen: set<int>)
    ensures forall x :: x in s && key(x) !in seen ==>
              exists y :: y in DistinctFrom(s, key, seen) && key(y) == key(x)
  {
    if s != [] {
      var k := key(s[0]);
      var r := DistinctFrom(s, key, seen);
      if k in seen {
        DistinctFromCovers(s[1..], key, seen);
      } else {
        DistinctFromCovers(s[1..], key, seen + {k});
        forall x | x in s && key(x) !in seen ensures exists y :: y in r && key(y) == key(x) {
          if key(x) == k {
            assert r[0] in r;
          } else {
            assert x in s[1..];
          }
        }
      }
    }
  }

  lemma {:induction false} DistinctFromFirst<T(!new)>(s: seq<T>, key: T -> int, seen: set<int>)
    ensures forall i :: 0 <= i < |DistinctFrom(s, key, seen)| ==>
              FirstWithKey(s, key, DistinctFrom(s, key, seen)[i])
  {
    if s != [] {
      var k := key(s[0]);
      var r := DistinctFrom(s, key, seen);
      if k in seen {
        DistinctFromFirst(s[1..], key, seen);
        assert r == DistinctFrom(s[1..], key, seen);
        forall i | 0 <= i < |r| ensures FirstWithKey(s, key, r[i]) {
          assert r[i] in r;
          FirstWithKeyTail(s, key, r[i]);
        }
      } else {
        var rest := DistinctFrom(s[1..], key, seen + {k});
        DistinctFromFirst(s[1..], key, seen + {k});
        assert r == [s[0]] + rest;
        assert FirstAt(s, key, s[0], 0);
        forall i | 1 <= i < |r| ensures FirstWithKey(s, key, r[i]) {
          assert r[i] == rest[i - 1] && rest[i - 1] in rest;
          FirstWithKeyTail(s, key, r[i]);
        }
      }
    }
  }

  /** `x` stands at position `i` of `s` and no row before it has its key. */
  ghost predicate FirstAt<T>(s: seq<T>, key: T -> int, x: T, i: int) {
    0 <= i < |s| && s[i] == x && forall j :: 0 <= j < i ==> key(s[j]) != key(x)
  }

  /** `x` is the first row of `s` with its key. */
  ghost predicate FirstWithKey<T>(s: seq<T>, key: T -> int, x: T) {
    exists i :: FirstAt(s, key, x, i)
  }

  lemma FirstWithKeyTail<T>(s: seq<T>, key: T -> int, x: T)
    requires s != [] && key(x) != key(s[0])
    requires FirstWithKey(s[1..], key, x)
    ensures FirstWithKey(s, key, x)
  {
    var i :| FirstAt(s[1..], key, x, i);
    assert FirstAt(s, key, x, i + 1) by {
      forall j | 1 <= j < i + 1 ensures key(s[j]) != key(x) {
        assert s[j] == s[1..][j - 1];
      }
    }
  }

  /** On a table ordered by `le`, `distinct` keeps for each key a row that
      `le` ranks first among the rows with that key, and keeps the order. */
  lemma DistinctByFirstRanked<T(!new)>(s: seq<T>, key: T -> int, le: (T, T) -> bool)
    requires TotalPreorder(le) && SortedBy(s, le)
    ensures forall y, x :: y in DistinctBy(s, key) && x in s && key(x) == key(y) ==> le(y, x)
  {
    var r := DistinctBy(s, key);
    forall y, x | y in r && x in s && key(x) == key(y) ensures le(y, x) {
      var i :| 0 <= i < |r| && r[i] == y;
      assert FirstWithKey(s, key, r[i]);
      var m :| FirstAt(s, key, y, m);
      var n :| 0 <= n < |s| && s[n] == x;
      assert key(s[n]) == key(y);
      assert m <= n;
      if m < n {
        assert le(s[m], s[n]);
      } else {
        assert le(y, y) || le(y, y);
      }
    }
  }

  /** `distinct` keeps the order of an ordered table. */
  lemma {:induction false} DistinctFromSorted<T(!new)>(s: seq<T>, key: T -> int, seen: set<int>, le: (T, T) -> bool)
    requires SortedBy(s, le)
    ensures SortedBy(DistinctFrom(s, key, seen), le)
  {
    if s != [] {
      var k := key(s[0]);
      if k in seen {
        DistinctFromSorted(s[1..], key, seen, le);
      } else {
        var rest := DistinctFrom(s[1..], key, seen + {k});
        DistinctFromSorted(s[1..], key, seen + {k}, le);
        forall j | 0 <= j < |rest| ensures le(s[0], rest[j]) {
          assert rest[j] in s[1..];
          var n :| 0 <= n < |s[1..]| && s[1..][n] == rest[j];
          assert s[n + 1] == rest[j];
        }
      }
    }
  }
}
