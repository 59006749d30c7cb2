/**
 * Sorting by a string key, as `Array.prototype.sort` does with the comparator
 * `(a, b) => key(a) > key(b) ? 1 : -1` used throughout the scanner.
 */
module Sorting {
  import opened Strings

  /** Non-decreasing by key: no later element has a key below an earlier one. */
  ghost predicate SortedBy<T>(s: seq<T>, key: T -> string) {
    forall i, j :: 0 <= i < j < |s| ==> !Less(key(s[j]), key(s[i]))
  }

  /** Inserts `x` before the first element whose key is not below `x`'s. */
  function Insert<T>(x: T, s: seq<T>, key: T -> string): (r: seq<T>)
    requires SortedBy(s, key)
    ensures multiset(r) == multiset(s) + multiset{x}
    ensures |r| == |s| + 1
    ensures SortedBy(r, key)
  {
    if s == [] then [x]
    else if Less(key(s[0]), key(x)) then
      var tail := Insert(x, s[1..], key);
      assert s == [s[0]] + s[1..];
      InsertHead(s[0], tail, s[1..], x, key);
      [s[0]] + tail
    else
      InsertFront(x, s, key);
      [x] + s
  }

  lemma InsertFront<T>(x: T, s: seq<T>, key: T -> string)
    requires SortedBy(s, key) && s != [] && !Less(key(s[0]), key(x))
    ensures SortedBy([x] + s, key)
  {
    LessTrichotomy(key(s[0]), key(x));
    forall j | 0 < j < |[x] + s| ensures !Less(key(([x] + s)[j]), key(x)) {
      if j > 1 {
        LessTransitiveImplies(key(s[j - 1]), key(x), key(s[0]));
      }
    }
  }

  lemma InsertHead<T>(h: T, tail: seq<T>, rest: seq<T>, x: T, key: T -> string)
    requires SortedBy([h] + rest, key) && SortedBy(tail, key)
    requires multiset(tail) == multiset(rest) + multiset{x}
    requires Less(key(h), key(x))
    ensures SortedBy([h] + tail, key)
  {
    forall j | 0 <= j < |tail| ensures !Less(key(tail[j]), key(h)) {
      assert tail[j] in multiset(tail);
      assert ([h] + rest)[0] == h;
      if tail[j] == x {
        LessAsymmetric(key(h), key(x));
      } else {
        assert tail[j] in multiset(rest);
        assert tail[j] in rest;
        var k :| 0 <= k < |rest| && rest[k] == tail[j];
        assert ([h] + rest)[k + 1] == tail[j];
      }
    }
  }

  /** Insertion sort: a sorted permutation of `s`. */
  function SortBy<T>(s: seq<T>, key: T -> string): (r: seq<T>)
    ensures multiset(r) == multiset(s)
    ensures |r| == |s|
    ensures SortedBy(r, key)
  {
    if s == [] then []
    else
      assert s == [s[0]] + s[1..];
      Insert(s[0], SortBy(s[1..], key), key)
  }

  lemma SortedHeadIsLeast<T>(s: seq<T>, x: T, key: T -> string)
    requires SortedBy(s, key) && x in s
    ensures !Less(key(x), key(s[0]))
  {
    var i :| 0 <= i < |s| && s[i] == x;
    if i == 0 {
      LessIrreflexive(key(x));
    }
  }

  lemma SortedTail<T>(s: seq<T>, key: T -> string)
    requires SortedBy(s, key) && s != []
    ensures SortedBy(s[1..], key)
  {
    forall i, j | 0 <= i < j < |s[1..]| ensures !Less(key(s[1..][j]), key(s[1..][i])) {
      assert s[1..][j] == s[j + 1] && s[1..][i] == s[i + 1];
    }
  }

  /** Two sorted permutations of the same elements, none repeated and no two sharing a key. */
  ghost predicate SortedAlike<T>(a: seq<T>, b: seq<T>, key: T -> string) {
    && multiset(a) == multiset(b)
    && SortedBy(a, key) && SortedBy(b, key)
    && (forall x, y :: x in multiset(a) && y in multiset(a) && key(x) == key(y) ==> x == y)
    && (forall x :: x in multiset(a) ==> multiset(a)[x] <= 1)
  }

  /**
   * With pairwise distinct keys the sorted order is unique: two sorted
   * permutations of the same elements are equal.
   */
  lemma {:induction false} SortedUnique<T>(a: seq<T>, b: seq<T>, key: T -> string)
    requires SortedAlike(a, b, key)
    ensures a == b
    decreases |a|
  {
    assert |a| == |multiset(a)| == |b|;
    if a != [] {
      SortedHeadsEqual(a, b, key);
      SortedTailsAgree(a, b, key);
      SortedUnique(a[1..], b[1..], key);
      assert a == [a[0]] + a[1..] && b == [b[0]] + b[1..];
    }
  }

  /** Two non-empty sorted permutations with distinct keys start with the same element. */
  lemma SortedHeadsEqual<T>(a: seq<T>, b: seq<T>, key: T -> string)
    requires a != [] && b != [] && SortedAlike(a, b, key)
    ensures a[0] == b[0]
  {
    assert a[0] in multiset(b) && b[0] in multiset(a);
    SortedHeadIsLeast(b, a[0], key);
    SortedHeadIsLeast(a, b[0], key);
    LessTrichotomy(key(a[0]), key(b[0]));
  }

  /** Dropping an equal head from two such sequences leaves two such sequences. */
  lemma SortedTailsAgree<T>(a: seq<T>, b: seq<T>, key: T -> string)
    requires a != [] && b != [] && a[0] == b[0] && SortedAlike(a, b, key)
    ensures SortedAlike(a[1..], b[1..], key)
  {
    assert a == [a[0]] + a[1..] && b == [b[0]] + b[1..];
    var ma := multiset(a[1..]);
    assert ma == multiset(a) - multiset{a[0]};
    assert multiset(b[1..]) == multiset(b) - multiset{b[0]};
    SortedTail(a, key);
    SortedTail(b, key);
    assert forall x :: x in ma ==> ma[x] <= multiset(a)[x];
  }

  /** A sequence without repeats holds each of its elements exactly once. */
  lemma {:induction false} DistinctCounts<T>(s: seq<T>)
    requires forall i, j :: 0 <= i < j < |s| ==> s[i] != s[j]
    ensures forall x :: multiset(s)[x] == if x in s then 1 else 0
  {
    if s != [] {
      var rest := s[1..];
      assert forall i, j :: 0 <= i < j < |rest| ==> rest[i] != rest[j] by {
        forall i, j | 0 <= i < j < |rest| ensures rest[i] != rest[j] {
          assert rest[i] == s[i + 1] && rest[j] == s[j + 1];
        }
      }
      DistinctCounts(rest);
      assert s == [s[0]] + rest;
      assert s[0] !in rest by {
        forall j | 0 <= j < |rest| ensures rest[j] != s[0] {
          assert rest[j] == s[j + 1];
        }
      }
    }
  }
}
