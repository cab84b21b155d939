/** The array primitives the stores are built from: `findIndex`, `find`,
    `some` and `filter`, each given its own contract, plus the
    "order-preserving subsequence" and "pairwise distinct" notions the
    store invariants are stated with. */
module Seqs {
  import opened Outcomes

  /** `i` is the index `findIndex` reports: the first element satisfying `p`. */
  ghost predicate IsFirst<T>(s: seq<T>, p: T -> bool, i: int)
  {
    0 <= i < |s| && p(s[i]) && forall j :: 0 <= j < i ==> !p(s[j])
  }

  /** `Array.prototype.findIndex`, with `None` standing for -1. */
  function FindIndex<T>(s: seq<T>, p: T -> bool): (r: Option<nat>)
    ensures r.Some? ==> IsFirst(s, p, r.value)
    ensures r.None? <==> forall j :: 0 <= j < |s| ==> !p(s[j])
  {
    if s == [] then None
    else if p(s[0]) then Some(0)
    else match FindIndex(s[1..], p)
      case None => None
      case Some(i) => Some(i + 1)
  }

  /** `Array.prototype.find(p) || null`: the first element satisfying `p`. */
  function Find<T>(s: seq<T>, p: T -> bool): (r: Option<T>)
    ensures r.None? <==> forall j :: 0 <= j < |s| ==> !p(s[j])
    ensures r.Some? ==> exists i :: IsFirst(s, p, i) && s[i] == r.value
  {
    match FindIndex(s, p)
    case None => None
    case Some(i) => Some(s[i])
  }

  /** `Array.prototype.some`. */
  function Any<T>(s: seq<T>, p: T -> bool): (r: bool)
    ensures r <==> exists i :: 0 <= i < |s| && p(s[i])
  {
    FindIndex(s, p).Some?
  }

  /** `r` can be obtained from `s` by deleting elements, keeping the order of the rest. */
  ghost predicate IsSubsequence<T>(r: seq<T>, s: seq<T>)
    decreases |s|
  {
    if r == [] then true
    else if s == [] then false
    else (r[0] == s[0] && IsSubsequence(r[1..], s[1..])) || IsSubsequence(r, s[1..])
  }

  /** `Array.prototype.filter`. Its full characterization is `FilterFacts`,
      kept apart so that callers pay for it only where they need it. */
  function Filter<T>(s: seq<T>, p: T -> bool): (r: seq<T>)
    ensures |r| <= |s|
  {
    if s == [] then []
    else (if p(s[0]) then [s[0]] else []) + Filter(s[1..], p)
  }

  /** A filter keeps exactly the elements satisfying `p`, each as often as
      in `s`, in storage order. */
  lemma {:induction false} FilterFacts<T(!new)>(s: seq<T>, p: T -> bool)
    ensures forall x :: x in Filter(s, p) <==> x in s && p(x)
    ensures forall x :: multiset(Filter(s, p))[x] == if p(x) then multiset(s)[x] else 0
    ensures IsSubsequence(Filter(s, p), s)
  {
    if s != [] {
      var rest := Filter(s[1..], p);
      FilterFacts(s[1..], p);
      assert s == [s[0]] + s[1..];
      assert multiset(s) == multiset{s[0]} + multiset(s[1..]);
      if p(s[0]) {
        assert Filter(s, p) == [s[0]] + rest;
        assert multiset(Filter(s, p)) == multiset{s[0]} + multiset(rest);
        assert ([s[0]] + rest)[1..] == rest;
      } else {
        assert Filter(s, p) == rest;
      }
    }
  }

  /** A filter every element passes returns the sequence itself. */
  lemma {:induction false} FilterAll<T>(s: seq<T>, p: T -> bool)
    requires forall i :: 0 <= i < |s| ==> p(s[i])
    ensures Filter(s, p) == s
  {
    if s != [] {
      FilterAll(s[1..], p);
      assert s == [s[0]] + s[1..];
    }
  }

  /** A filter removes nothing exactly when every element passes it. */
  lemma {:induction false} FilterKeepsLength<T>(s: seq<T>, p: T -> bool)
    ensures |Filter(s, p)| == |s| <==> forall i :: 0 <= i < |s| ==> p(s[i])
  {
    if s != [] {
      var rest := Filter(s[1..], p);
      FilterKeepsLength(s[1..], p);
      if p(s[0]) {
        assert Filter(s, p) == [s[0]] + rest;
        assert (forall i :: 1 <= i < |s| ==> p(s[i])) ==> forall i :: 0 <= i < |s[1..]| ==> p(s[1..][i]);
        assert (forall i :: 0 <= i < |s[1..]| ==> p(s[1..][i])) ==> forall i :: 1 <= i < |s| ==> p(s[i]) by {
          assert forall i :: 1 <= i < |s| ==> s[i] == s[1..][i - 1];
        }
      } else {
        assert Filter(s, p) == rest;
      }
    }
  }

  /** Subsequences compose. */
  lemma {:induction false} SubsequenceTransitive<T>(a: seq<T>, b: seq<T>, c: seq<T>)
    requires IsSubsequence(a, b) && IsSubsequence(b, c)
    ensures IsSubsequence(a, c)
    decreases |c|
  {
    if a != [] {
      if IsSubsequence(b, c[1..]) {
        SubsequenceTransitive(a, b, c[1..]);
      } else if a[0] == b[0] && IsSubsequence(a[1..], b[1..]) {
        SubsequenceTransitive(a[1..], b[1..], c[1..]);
      } else {
        SubsequenceTransitive(a, b[1..], c[1..]);
      }
    }
  }

  /** The position of the first record whose identifier is `id`: how the
      stores locate the record an update targets. */
  function FirstIndexOf<T>(s: seq<T>, idOf: T -> string, id: string): (r: Option<nat>)
    ensures r.None? <==> forall j :: 0 <= j < |s| ==> idOf(s[j]) != id
    ensures r.Some? ==>
      (r.value < |s| && idOf(s[r.value]) == id && forall j :: 0 <= j < r.value ==> idOf(s[j]) != id)
  {
    FindIndex(s, (x: T) => idOf(x) == id)
  }

  /** `all.filter(x => x.id !== id)`: how the stores delete. Every record
      with that identifier goes, the rest stay in order. */
  function RemoveAll<T(!new)>(s: seq<T>, idOf: T -> string, id: string): (r: seq<T>)
    ensures IsSubsequence(r, s)
    ensures forall x :: x in r <==> x in s && idOf(x) != id
    ensures forall x :: multiset(r)[x] == if idOf(x) != id then multiset(s)[x] else 0
    ensures (forall j :: 0 <= j < |s| ==> idOf(s[j]) != id) ==> r == s
  {
    var keep := (x: T) => idOf(x) != id;
    FilterFacts(s, keep);
    if forall j :: 0 <= j < |s| ==> idOf(s[j]) != id then
      FilterAll(s, keep);
      Filter(s, keep)
    else
      Filter(s, keep)
  }

  /** The read / `findIndex` / replace / write-back pattern of the update
      operations: the first record with identifier `id` is replaced by
      `change` of it and returned; when there is none the operation fails
      with `missing` and writes nothing. */
  function UpdateFirst<T>(s: seq<T>, idOf: T -> string, id: string, change: T -> T, missing: string)
    : (r: Step<seq<T>, Result<T>>)
    ensures FirstIndexOf(s, idOf, id).None? <==> r == Step(s, Failure(missing))
    ensures FirstIndexOf(s, idOf, id).Some? ==>
      var i := FirstIndexOf(s, idOf, id).value;
      && r.out == Success(change(s[i]))
      && |r.next| == |s|
      && r.next[i] == change(s[i])
      && forall j :: 0 <= j < |s| && j != i ==> r.next[j] == s[j]
  {
    match FirstIndexOf(s, idOf, id)
    case None => Step(s, Failure(missing))
    case Some(i) => Step(s[i := change(s[i])], Success(change(s[i])))
  }

  /** Filters that agree on every element of `s` select the same elements. */
  lemma {:induction false} FilterSame<T>(s: seq<T>, p: T -> bool, q: T -> bool)
    requires forall i :: 0 <= i < |s| ==> p(s[i]) == q(s[i])
    ensures Filter(s, p) == Filter(s, q)
  {
    if s != [] {
      FilterSame(s[1..], p, q);
    }
  }

  /** Deleting twice is deleting once, and afterwards no record carries the
      identifier. */
  lemma RemoveAllIdempotent<T(!new)>(s: seq<T>, idOf: T -> string, id: string)
    ensures FirstIndexOf(RemoveAll(s, idOf, id), idOf, id).None?
    ensures RemoveAll(RemoveAll(s, idOf, id), idOf, id) == RemoveAll(s, idOf, id)
  {
    var r := RemoveAll(s, idOf, id);
    assert forall j :: 0 <= j < |r| ==> r[j] in r;
  }

  /** No two elements share a key. */
  ghost predicate DistinctBy<T, K>(s: seq<T>, key: T -> K)
  {
    forall i, j :: 0 <= i < j < |s| ==> key(s[i]) != key(s[j])
  }

  /** No value occurs twice. */
  predicate NoDuplicates<T(==)>(s: seq<T>)
  {
    forall i, j :: 0 <= i < j < |s| ==> s[i] != s[j]
  }

  lemma {:induction false} SubsequenceMembers<T>(r: seq<T>, s: seq<T>)
    requires IsSubsequence(r, s)
    ensures forall x :: x in r ==> x in s
    decreases |s|
  {
    if r != [] {
      if r[0] == s[0] && IsSubsequence(r[1..], s[1..]) {
        SubsequenceMembers(r[1..], s[1..]);
        assert r == [r[0]] + r[1..];
      } else {
        SubsequenceMembers(r, s[1..]);
      }
    }
  }

  /** Deleting elements never makes two keys equal: an invariant stated with
      `DistinctBy` survives every filter. */
  lemma {:induction false} SubsequenceKeepsDistinct<T, K>(r: seq<T>, s: seq<T>, key: T -> K)
    requires IsSubsequence(r, s) && DistinctBy(s, key)
    ensures DistinctBy(r, key)
    decreases |s|
  {
    if r != [] {
      if r[0] == s[0] && IsSubsequence(r[1..], s[1..]) {
        SubsequenceKeepsDistinct(r[1..], s[1..], key);
        SubsequenceMembers(r[1..], s[1..]);
        forall j | 1 <= j < |r|
          ensures key(r[0]) != key(r[j])
        {
          assert r[j] in r[1..];
          var k :| 0 <= k < |s[1..]| && s[1..][k] == r[j];
          assert s[k + 1] == r[j];
        }
        forall i, j | 0 <= i < j < |r|
          ensures key(r[i]) != key(r[j])
        {
          if i > 0 {
            assert r[i] == r[1..][i - 1] && r[j] == r[1..][j - 1];
          }
        }
      } else {
        SubsequenceKeepsDistinct(r, s[1..], key);
      }
    }
  }
}
