/**
 * Sequence operations the client performs on what the store returns: `Array.prototype.filter`,
 * the key order in which IndexedDB hands records back, and the newest-first `Array.prototype.sort`.
 */
module Seqs {
  import opened Wrappers

  /** `s.filter(p)`: the elements satisfying `p`, in their original order. */
  function Filter<T>(s: seq<T>, p: T -> bool): (r: seq<T>)
    ensures |r| <= |s|
  {
    if s == [] then []
    else if p(s[0]) then [s[0]] + Filter(s[1..], p)
    else Filter(s[1..], p)
  }

  /** An element survives the filter exactly when it was there and satisfies the predicate. */
  lemma {:induction false} FilterMembership<T>(s: seq<T>, p: T -> bool, x: T)
    ensures x in Filter(s, p) <==> x in s && p(x)
  {
    if s != [] {
      FilterMembership(s[1..], p, x);
      assert s == [s[0]] + s[1..];
    }
  }

  /** Filtering with a predicate and with its negation splits the input: together they are a permutation of it. */
  lemma {:induction false} FilterPartition<T>(s: seq<T>, p: T -> bool, q: T -> bool)
    requires forall x :: q(x) == !p(x)
    ensures multiset(Filter(s, p)) + multiset(Filter(s, q)) == multiset(s)
  {
    if s != [] {
      var t := s[1..];
      FilterPartition(t, p, q);
      assert s == [s[0]] + t;
      assert multiset(s) == multiset([s[0]]) + multiset(t);
      if p(s[0]) {
        assert Filter(s, p) == [s[0]] + Filter(t, p) && Filter(s, q) == Filter(t, q);
      } else {
        assert Filter(s, q) == [s[0]] + Filter(t, q) && Filter(s, p) == Filter(t, p);
      }
    }
  }

  /** Filtering one more element at the end appends it when it passes. */
  lemma {:induction false} FilterSnoc<T>(s: seq<T>, x: T, p: T -> bool)
    ensures Filter(s + [x], p) == Filter(s, p) + (if p(x) then [x] else [])
  {
    if s == [] {
      assert s + [x] == [x];
    } else {
      assert (s + [x])[0] == s[0];
      assert (s + [x])[1..] == s[1..] + [x];
      FilterSnoc(s[1..], x, p);
    }
  }

  /** A predicate that holds of every element keeps the whole sequence. */
  lemma {:induction false} FilterKeepsAll<T>(s: seq<T>, p: T -> bool)
    requires forall i :: 0 <= i < |s| ==> p(s[i])
    ensures Filter(s, p) == s
  {
    if s != [] {
      FilterKeepsAll(s[1..], p);
    }
  }

  /** `R` holds of every pair of elements in sequence order. */
  ghost predicate Pairwise<T>(s: seq<T>, R: (T, T) -> bool) {
    forall i, j :: 0 <= i < j < |s| ==> R(s[i], s[j])
  }

  /** Filtering keeps the survivors in their original relative order. */
  lemma {:induction false} FilterKeepsOrder<T>(s: seq<T>, p: T -> bool, R: (T, T) -> bool)
    requires Pairwise(s, R)
    ensures Pairwise(Filter(s, p), R)
  {
    if s != [] {
      var tail := Filter(s[1..], p);
      FilterKeepsOrder(s[1..], p, R);
      if p(s[0]) {
        forall j | 0 <= j < |tail| ensures R(s[0], tail[j]) {
          FilterMembership(s[1..], p, tail[j]);
          var k :| 0 <= k < |s[1..]| && s[1..][k] == tail[j];
          assert s[k + 1] == tail[j];
        }
      }
    }
  }

  /** The least element of a non-empty finite set of integers. */
  lemma {:induction false} MinOf(s: set<int>) returns (m: int)
    requires s != {}
    ensures m in s && forall k :: k in s ==> m <= k
    decreases |s|
  {
    if forall z :: z !in s {
      assert false;
    }
    var y :| y in s;
    if s == {y} {
      m := y;
    } else {
      var n := MinOf(s - {y});
      m := if y < n then y else n;
      assert forall k :: k in s ==> k == y || k in s - {y};
    }
  }

  lemma MinExists(s: set<int>)
    requires s != {}
    ensures exists m :: m in s && forall k :: k in s ==> m <= k
  {
    var m := MinOf(s);
  }

  /** The keys of a set in ascending order: the order in which an object store returns its records. */
  function SortedKeys(s: set<int>): (ks: seq<int>)
    ensures forall i, j :: 0 <= i < j < |ks| ==> ks[i] < ks[j]
    ensures forall k :: k in ks <==> k in s
    ensures |ks| == |s|
    decreases |s|
  {
    if s == {} then []
    else
      MinExists(s);
      var m :| m in s && forall k :: k in s ==> m <= k;
      var rest := SortedKeys(s - {m});
      ConsLeast(m, s, rest);
      [m] + rest
  }

  lemma ConsLeast(m: int, s: set<int>, rest: seq<int>)
    requires m in s && forall k :: k in s ==> m <= k
    requires forall i, j :: 0 <= i < j < |rest| ==> rest[i] < rest[j]
    requires forall k :: k in rest <==> k in s - {m}
    requires |rest| == |s - {m}|
    ensures forall i, j :: 0 <= i < j < |[m] + rest| ==> ([m] + rest)[i] < ([m] + rest)[j]
    ensures forall k :: k in [m] + rest <==> k in s
    ensures |[m] + rest| == |s|
  {
    forall j | 0 <= j < |rest| ensures m < rest[j] {
      assert rest[j] in rest;
    }
  }

  /** `a` may precede `b` in a newest-first order; a missing time counts as older than every time. */
  predicate NotOlder(a: Option<int>, b: Option<int>) {
    b.None? || (a.Some? && a.value >= b.value)
  }

  /** Every element is at least as recent as every element after it. */
  ghost predicate NewestFirst<T>(s: seq<T>, key: T -> Option<int>) {
    forall i, j :: 0 <= i < j < |s| ==> NotOlder(key(s[i]), key(s[j]))
  }

  /** Inserts `x` in front of the first element that is not more recent than it. */
  function InsertNewestFirst<T>(x: T, s: seq<T>, key: T -> Option<int>): (r: seq<T>)
    requires NewestFirst(s, key)
    ensures NewestFirst(r, key)
    ensures multiset(r) == multiset(s) + multiset{x}
  {
    if s == [] then [x]
    else if NotOlder(key(x), key(s[0])) then [x] + s
    else
      var rest := InsertNewestFirst(x, s[1..], key);
      HeadStaysFirst(x, s, rest, key);
      [s[0]] + rest
  }

  /** When `x` is older than the head of `s`, that head may still lead once `x` is inserted into the tail. */
  lemma HeadStaysFirst<T>(x: T, s: seq<T>, rest: seq<T>, key: T -> Option<int>)
    requires s != [] && NewestFirst(s, key) && NewestFirst(rest, key)
    requires !NotOlder(key(x), key(s[0]))
    requires multiset(rest) == multiset(s[1..]) + multiset{x}
    ensures NewestFirst([s[0]] + rest, key)
    ensures multiset([s[0]] + rest) == multiset(s) + multiset{x}
  {
    assert s == [s[0]] + s[1..];
    forall j | 0 <= j < |rest| ensures NotOlder(key(s[0]), key(rest[j])) {
      assert rest[j] in multiset(rest);
      if rest[j] != x {
        assert rest[j] in multiset(s[1..]);
        var k :| 0 <= k < |s[1..]| && s[1..][k] == rest[j];
        assert s[k + 1] == rest[j];
      }
    }
  }

  /**
   * `s.sort((a, b) => key(b) - key(a))`: a stable newest-first sort. The result is a permutation
   * of the input in which no element is older than one after it.
   */
  function SortNewestFirst<T>(s: seq<T>, key: T -> Option<int>): (r: seq<T>)
    ensures NewestFirst(r, key)
    ensures multiset(r) == multiset(s)
  {
    if s == [] then []
    else
      assert s == [s[0]] + s[1..];
      InsertNewestFirst(s[0], SortNewestFirst(s[1..], key), key)
  }

  /** The test "has key `c`", for picking out the elements that rank equal. */
  function SameKey<T>(key: T -> Option<int>, c: Option<int>): T -> bool {
    x => key(x) == c
  }

  /** Insertion places the new element in front of the elements that rank equal to it and moves no other one past them. */
  lemma {:induction false} InsertStable<T>(x: T, s: seq<T>, key: T -> Option<int>, c: Option<int>)
    requires NewestFirst(s, key)
    ensures Filter(InsertNewestFirst(x, s, key), SameKey(key, c)) ==
      (if key(x) == c then [x] else []) + Filter(s, SameKey(key, c))
  {
    var p := SameKey(key, c);
    if s == [] {
      assert InsertNewestFirst(x, s, key) == [x];
    } else if NotOlder(key(x), key(s[0])) {
      var r := [x] + s;
      assert r[0] == x && r[1..] == s;
    } else {
      var tail := s[1..];
      assert NewestFirst(tail, key) by {
        forall i, j | 0 <= i < j < |tail| ensures NotOlder(key(tail[i]), key(tail[j])) {
          assert tail[i] == s[i + 1] && tail[j] == s[j + 1];
        }
      }
      InsertStable(x, tail, key, c);
      var rest := InsertNewestFirst(x, tail, key);
      var r := [s[0]] + rest;
      assert InsertNewestFirst(x, s, key) == r;
      assert r[0] == s[0] && r[1..] == rest;
      assert key(x) != key(s[0]);
    }
  }

  /** The sort is stable: the elements that rank equal keep their input order. */
  lemma {:induction false} SortStable<T>(s: seq<T>, key: T -> Option<int>, c: Option<int>)
    ensures Filter(SortNewestFirst(s, key), SameKey(key, c)) == Filter(s, SameKey(key, c))
  {
    if s != [] {
      SortStable(s[1..], key, c);
      InsertStable(s[0], SortNewestFirst(s[1..], key), key, c);
    }
  }
}
