/** The newest-first ordering used by the announcement and assignment
    listings: `Array.prototype.sort` with the comparator
    `(a, b) => time(b.createdAt) - time(a.createdAt)`. Since ES2019 that sort
    is stable, so records with the same timestamp keep their storage order.
    The model is a stable insertion sort on a timestamp key. */
module Sorting {
  import opened Seqs

  /** Keys never increase from left to right: newest first. */
  ghost predicate NewestFirst<T>(s: seq<T>, key: T -> int)
  {
    forall i, j :: 0 <= i < j < |s| ==> key(s[i]) >= key(s[j])
  }

  /** The records stamped with timestamp `k`, in the order they appear. */
  function Stamped<T>(s: seq<T>, key: T -> int, k: int): seq<T>
  {
    if s == [] then []
    else (if key(s[0]) == k then [s[0]] else []) + Stamped(s[1..], key, k)
  }

  lemma {:induction false} StampedIsSubsequence<T>(s: seq<T>, key: T -> int, k: int)
    ensures IsSubsequence(Stamped(s, key, k), s)
  {
    if s != [] {
      StampedIsSubsequence(s[1..], key, k);
      var rest := Stamped(s[1..], key, k);
      if key(s[0]) == k {
        assert ([s[0]] + rest)[1..] == rest;
      } else {
        assert Stamped(s, key, k) == rest;
      }
    }
  }

  /** Places `x` ahead of the first element that is not newer than it, so
      `x` lands before every element with the same timestamp. */
  function Insert<T>(x: T, s: seq<T>, key: T -> int): seq<T>
  {
    if s == [] then [x]
    else if key(s[0]) <= key(x) then [x] + s
    else [s[0]] + Insert(x, s[1..], key)
  }

  /** Inserting into a newest-first sequence keeps it newest first and adds
      exactly one occurrence of `x`. */
  lemma {:induction false} InsertKeepsOrder<T(!new)>(x: T, s: seq<T>, key: T -> int)
    requires NewestFirst(s, key)
    ensures NewestFirst(Insert(x, s, key), key)
    ensures multiset(Insert(x, s, key)) == multiset(s) + multiset{x}
  {
    if s == [] {
    } else if key(s[0]) <= key(x) {
      PrependNewest(x, s, key);
    } else {
      var rest := Insert(x, s[1..], key);
      assert s == [s[0]] + s[1..];
      NewestFirstTail(s, key);
      InsertKeepsOrder(x, s[1..], key);
      forall y | y in rest
        ensures key(s[0]) >= key(y)
      {
        assert y in multiset(rest);
        if y != x {
          assert y in multiset(s[1..]);
        }
      }
      PrependNewest(s[0], rest, key);
    }
  }

  lemma NewestFirstTail<T>(s: seq<T>, key: T -> int)
    requires NewestFirst(s, key) && s != []
    ensures NewestFirst(s[1..], key)
    ensures forall y :: y in s ==> key(s[0]) >= key(y)
  {
  }

  lemma PrependNewest<T>(x: T, s: seq<T>, key: T -> int)
    requires NewestFirst(s, key)
    requires forall y :: y in s ==> key(x) >= key(y)
    ensures NewestFirst([x] + s, key)
  {
    forall i, j | 0 <= i < j < |[x] + s|
      ensures key(([x] + s)[i]) >= key(([x] + s)[j])
    {
      if i > 0 {
        assert ([x] + s)[i] == s[i - 1];
      }
      assert ([x] + s)[j] == s[j - 1];
    }
  }

  /** Insertion sort, newest first. */
  function SortNewestFirst<T(!new)>(s: seq<T>, key: T -> int): (r: seq<T>)
    ensures NewestFirst(r, key)
    ensures multiset(r) == multiset(s)
  {
    if s == [] then []
    else
      assert s == [s[0]] + s[1..];
      InsertKeepsOrder(s[0], SortNewestFirst(s[1..], key), key);
      Insert(s[0], SortNewestFirst(s[1..], key), key)
  }

  /** `Stamped` takes a leading element or leaves it. */
  lemma StampedCons<T>(y: T, t: seq<T>, key: T -> int, k: int)
    ensures Stamped([y] + t, key, k) == (if key(y) == k then [y] else []) + Stamped(t, key, k)
  {
    assert ([y] + t)[1..] == t;
  }

  lemma {:induction false} InsertStamped<T>(x: T, s: seq<T>, key: T -> int, k: int)
    ensures Stamped(Insert(x, s, key), key, k)
         == (if key(x) == k then [x] else []) + Stamped(s, key, k)
  {
    if s == [] {
      StampedCons(x, s, key, k);
      assert [x] + s == [x];
    } else if key(s[0]) <= key(x) {
      StampedCons(x, s, key, k);
    } else {
      var rest := Insert(x, s[1..], key);
      InsertStamped(x, s[1..], key, k);
      StampedCons(s[0], rest, key, k);
      StampedCons(s[0], s[1..], key, k);
      assert [s[0]] + s[1..] == s;
      assert key(x) != k || key(s[0]) != k;
    }
  }

  /** The sort is stable: for every timestamp, the records carrying it come
      out in the order they went in. Together with the multiset and order
      facts this pins the result down completely. */
  lemma {:induction false} SortIsStable<T(!new)>(s: seq<T>, key: T -> int, k: int)
    ensures Stamped(SortNewestFirst(s, key), key, k) == Stamped(s, key, k)
  {
    if s != [] {
      SortIsStable(s[1..], key, k);
      InsertStamped(s[0], SortNewestFirst(s[1..], key), key, k);
      assert s == [s[0]] + s[1..];
    }
  }
}
