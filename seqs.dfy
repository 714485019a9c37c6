/** Sequence combinators that the query model is built from: selection (an SQL
    WHERE clause or Array.prototype.filter), the first match (LIMIT 1),
    ordering (ORDER BY), a page window (LIMIT/OFFSET) and DISTINCT ON. */
module Seqs {
  import opened Results

  /** The elements of s that satisfy p, in their original order. */
  function Filter<T(!new)>(s: seq<T>, p: T -> bool): (r: seq<T>)
    ensures |r| <= |s|
    ensures forall x :: x in r <==> x in s && p(x)
  {
    if s == [] then []
    else
      assert s == [s[0]] + s[1..];
      (if p(s[0]) then [s[0]] else []) + Filter(s[1..], p)
  }

  /** a is obtained from b by deleting elements, keeping the order of the rest. */
  ghost predicate IsSubsequence<T>(a: seq<T>, b: seq<T>)
    decreases |b|
  {
    if b == [] then a == []
    else (a != [] && a[0] == b[0] && IsSubsequence(a[1..], b[1..])) || IsSubsequence(a, b[1..])
  }

  lemma {:induction false} EmptyIsSubsequence<T>(s: seq<T>)
    ensures IsSubsequence([], s)
  {
    if s != [] {
      EmptyIsSubsequence(s[1..]);
    }
  }

  lemma {:induction false} FilterIsSubsequence<T(!new)>(s: seq<T>, p: T -> bool)
    ensures IsSubsequence(Filter(s, p), s)
  {
    if s != [] {
      FilterIsSubsequence(s[1..], p);
      if p(s[0]) {
        assert Filter(s, p) == [s[0]] + Filter(s[1..], p);
        assert Filter(s, p)[1..] == Filter(s[1..], p);
      } else {
        assert Filter(s, p) == Filter(s[1..], p);
      }
    }
  }

  /** Filtering keeps every satisfying element as many times as it occurs and
      drops every other one. */
  lemma {:induction false} FilterMultiset<T(!new)>(s: seq<T>, p: T -> bool, x: T)
    ensures multiset(Filter(s, p))[x] == if p(x) then multiset(s)[x] else 0
  {
    if s != [] {
      FilterMultiset(s[1..], p, x);
      assert s == [s[0]] + s[1..];
      assert multiset(s) == multiset{s[0]} + multiset(s[1..]);
      var head: seq<T> := if p(s[0]) then [s[0]] else [];
      assert Filter(s, p) == head + Filter(s[1..], p);
      assert multiset(Filter(s, p)) == multiset(head) + multiset(Filter(s[1..], p));
    }
  }

  /** A selection that every element passes leaves the sequence as it is. */
  lemma {:induction false} FilterAllPass<T(!new)>(s: seq<T>, p: T -> bool)
    requires forall i :: 0 <= i < |s| ==> p(s[i])
    ensures Filter(s, p) == s
  {
    if s != [] {
      FilterAllPass(s[1..], p);
      assert s == [s[0]] + s[1..];
    }
  }

  /** A selection that no element passes is empty. */
  lemma {:induction false} FilterNone<T(!new)>(s: seq<T>, p: T -> bool)
    requires forall i :: 0 <= i < |s| ==> !p(s[i])
    ensures Filter(s, p) == []
  {
    if s != [] {
      FilterNone(s[1..], p);
    }
  }

  lemma FilterIdempotent<T(!new)>(s: seq<T>, p: T -> bool)
    ensures Filter(Filter(s, p), p) == Filter(s, p)
  {
    var r := Filter(s, p);
    assert forall i :: 0 <= i < |r| ==> r[i] in r;
    FilterAllPass(r, p);
  }

  /** Selecting with a weaker predicate keeps at least as many elements. */
  lemma {:induction false} FilterLengthMonotone<T(!new)>(s: seq<T>, p: T -> bool, q: T -> bool)
    requires forall x :: p(x) ==> q(x)
    ensures |Filter(s, p)| <= |Filter(s, q)|
  {
    if s != [] {
      FilterLengthMonotone(s[1..], p, q);
    }
  }

  /** Two complementary selections split a sequence: every element lands in
      exactly one of them, as often as it occurs. */
  lemma FilterSplit<T(!new)>(s: seq<T>, p: T -> bool, q: T -> bool)
    requires forall x :: q(x) <==> !p(x)
    ensures multiset(Filter(s, p)) + multiset(Filter(s, q)) == multiset(s)
  {
    forall x ensures (multiset(Filter(s, p)) + multiset(Filter(s, q)))[x] == multiset(s)[x] {
      FilterMultiset(s, p, x);
      FilterMultiset(s, q, x);
    }
  }

  /** The first element of s that satisfies p, if any. */
  function FindFirst<T(!new)>(s: seq<T>, p: T -> bool): (r: Option<T>)
    ensures r.None? <==> forall x :: x in s ==> !p(x)
    ensures r.Some? ==> r.value in s && p(r.value)
  {
    if s == [] then None
    else if p(s[0]) then Some(s[0])
    else
      assert s == [s[0]] + s[1..];
      FindFirst(s[1..], p)
  }

  /** leq is total and transitive, so it can order a sequence. */
  ghost predicate TotalPreorder<T(!new)>(leq: (T, T) -> bool) {
    (forall a, b :: leq(a, b) || leq(b, a)) &&
    (forall a, b, c :: leq(a, b) && leq(b, c) ==> leq(a, c))
  }

  /** Every element is leq-before every later element. */
  ghost predicate SortedBy<T>(s: seq<T>, leq: (T, T) -> bool) {
    forall i, j :: 0 <= i < j < |s| ==> leq(s[i], s[j])
  }

  /** Inserts x before the first element it is leq-before. */
  function InsertSorted<T>(x: T, s: seq<T>, leq: (T, T) -> bool): seq<T> {
    if s == [] then [x]
    else if leq(x, s[0]) then [x] + s
    else [s[0]] + InsertSorted(x, s[1..], leq)
  }

  /** Insertion sort by leq: the ordering an ORDER BY clause produces. */
  function SortBy<T>(s: seq<T>, leq: (T, T) -> bool): seq<T> {
    if s == [] then [] else InsertSorted(s[0], SortBy(s[1..], leq), leq)
  }

  lemma SortedTail<T>(s: seq<T>, leq: (T, T) -> bool)
    requires s != [] && SortedBy(s, leq)
    ensures SortedBy(s[1..], leq)
  {
    var t := s[1..];
    forall i, j | 0 <= i < j < |t| ensures leq(t[i], t[j]) {
      assert t[i] == s[i + 1] && t[j] == s[j + 1];
    }
  }

  lemma SortedCons<T>(x: T, t: seq<T>, leq: (T, T) -> bool)
    requires SortedBy(t, leq)
    requires forall k :: 0 <= k < |t| ==> leq(x, t[k])
    ensures SortedBy([x] + t, leq)
  {
    var r := [x] + t;
    forall i, j | 0 <= i < j < |r| ensures leq(r[i], r[j]) {
      if i == 0 {
        assert r[j] == t[j - 1];
      } else {
        assert r[i] == t[i - 1] && r[j] == t[j - 1];
      }
    }
  }

  lemma {:induction false} InsertSortedCorrect<T(!new)>(x: T, s: seq<T>, leq: (T, T) -> bool)
    requires TotalPreorder(leq) && SortedBy(s, leq)
    ensures multiset(InsertSorted(x, s, leq)) == multiset(s) + multiset{x}
    ensures SortedBy(InsertSorted(x, s, leq), leq)
  {
    if s == [] {
    } else if leq(x, s[0]) {
      forall k | 0 <= k < |s| ensures leq(x, s[k]) {
        if k > 0 { assert leq(s[0], s[k]); }
      }
      SortedCons(x, s, leq);
    } else {
      assert s == [s[0]] + s[1..];
      SortedTail(s, leq);
      InsertSortedCorrect(x, s[1..], leq);
      var t := InsertSorted(x, s[1..], leq);
      var u := [x] + s[1..];
      assert multiset(t) == multiset(u);
      forall k | 0 <= k < |u| ensures leq(s[0], u[k]) {
        if k > 0 { assert u[k] == s[k]; }
      }
      BoundOfPermutation(s[0], u, t, leq);
      SortedCons(s[0], t, leq);
    }
  }

  /** A lower bound of every element is a lower bound of every element of a permutation. */
  lemma BoundOfPermutation<T>(y: T, u: seq<T>, t: seq<T>, leq: (T, T) -> bool)
    requires multiset(t) == multiset(u)
    requires forall k :: 0 <= k < |u| ==> leq(y, u[k])
    ensures forall k :: 0 <= k < |t| ==> leq(y, t[k])
  {
    forall k | 0 <= k < |t| ensures leq(y, t[k]) {
      assert t[k] in multiset(u);
      var m :| 0 <= m < |u| && u[m] == t[k];
    }
  }

  /** SortBy returns a permutation of its input, ordered by leq. */
  lemma {:induction false} SortByCorrect<T(!new)>(s: seq<T>, leq: (T, T) -> bool)
    requires TotalPreorder(leq)
    ensures multiset(SortBy(s, leq)) == multiset(s)
    ensures SortedBy(SortBy(s, leq), leq)
  {
    if s != [] {
      SortByCorrect(s[1..], leq);
      InsertSortedCorrect(s[0], SortBy(s[1..], leq), leq);
      assert s == [s[0]] + s[1..];
    }
  }

  /** Selecting from a sorted sequence keeps it sorted. */
  lemma {:induction false} FilterKeepsSorted<T(!new)>(s: seq<T>, p: T -> bool, leq: (T, T) -> bool)
    requires SortedBy(s, leq)
    ensures SortedBy(Filter(s, p), leq)
  {
    if s != [] {
      var rest := s[1..];
      SortedTail(s, leq);
      FilterKeepsSorted(rest, p, leq);
      var f := Filter(rest, p);
      if p(s[0]) {
        forall k | 0 <= k < |f| ensures leq(s[0], f[k]) {
          assert f[k] in f;
          var m :| 0 <= m < |rest| && rest[m] == f[k];
          assert s[m + 1] == f[k];
        }
        SortedCons(s[0], f, leq);
        assert Filter(s, p) == [s[0]] + f;
      } else {
        assert Filter(s, p) == f;
      }
    }
  }

  /** Rows offset .. offset + limit - 1 of s (LIMIT limit OFFSET offset):
      empty once the offset is past the end. */
  function Window<T>(s: seq<T>, offset: nat, limit: nat): (r: seq<T>)
    ensures |r| <= limit
    ensures offset >= |s| ==> r == []
    ensures offset < |s| ==> |r| == if limit <= |s| - offset then limit else |s| - offset
    ensures forall i :: 0 <= i < |r| ==> offset + i < |s| && r[i] == s[offset + i]
  {
    if offset >= |s| then []
    else if limit <= |s| - offset then s[offset..offset + limit]
    else s[offset..]
  }

  lemma WindowKeepsSorted<T>(s: seq<T>, offset: nat, limit: nat, leq: (T, T) -> bool)
    requires SortedBy(s, leq)
    ensures SortedBy(Window(s, offset, limit), leq)
  {
    var r := Window(s, offset, limit);
    forall i, j | 0 <= i < j < |r| ensures leq(r[i], r[j]) {
      assert r[i] == s[offset + i] && r[j] == s[offset + j];
    }
  }

  /** A window of a permutation of t draws its elements from t, and t is as
      long as the permuted sequence. */
  lemma WindowOfPermutation<T>(s: seq<T>, t: seq<T>, offset: nat, limit: nat)
    requires multiset(s) == multiset(t)
    ensures |s| == |t|
    ensures forall x :: x in Window(s, offset, limit) ==> x in t
  {
    assert |multiset(s)| == |multiset(t)|;
    var r := Window(s, offset, limit);
    forall x | x in r ensures x in t {
      var i :| 0 <= i < |r| && r[i] == x;
      assert s[offset + i] == x;
      assert x in multiset(s);
    }
  }

  /** DISTINCT ON key: keeps the first element of each key not in seen and
      drops the later ones. */
  function DistinctOn<T(!new), K(==)>(s: seq<T>, key: T -> K, seen: set<K>): (r: seq<T>)
    ensures forall i :: 0 <= i < |r| ==> r[i] in s && key(r[i]) !in seen
    ensures forall i, j :: 0 <= i < j < |r| ==> key(r[i]) != key(r[j])
  {
    if s == [] then []
    else
      assert s == [s[0]] + s[1..];
      if key(s[0]) in seen then DistinctOn(s[1..], key, seen)
      else
        var rest := DistinctOn(s[1..], key, seen + {key(s[0])});
        assert forall i :: 0 <= i < |rest| ==> ([s[0]] + rest)[i + 1] == rest[i];
        [s[0]] + rest
  }

  /** DISTINCT ON loses no key: every key of s outside seen has a
      representative in the result. */
  lemma {:induction false} DistinctOnComplete<T(!new), K>(s: seq<T>, key: T -> K, seen: set<K>, x: T)
    requires x in s && key(x) !in seen
    ensures exists i :: 0 <= i < |DistinctOn(s, key, seen)| && key(DistinctOn(s, key, seen)[i]) == key(x)
  {
    assert s == [s[0]] + s[1..];
    var r := DistinctOn(s, key, seen);
    if key(s[0]) in seen {
      DistinctOnComplete(s[1..], key, seen, x);
    } else if key(x) == key(s[0]) {
      assert key(r[0]) == key(x);
    } else {
      var rest := DistinctOn(s[1..], key, seen + {key(s[0])});
      DistinctOnComplete(s[1..], key, seen + {key(s[0])}, x);
      var i :| 0 <= i < |rest| && key(rest[i]) == key(x);
      assert r == [s[0]] + rest;
      assert key(r[i + 1]) == key(x);
    }
  }
}
