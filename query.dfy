/**
 * The document store's query primitives over one collection: selection by a
 * condition (`findBy({ where })`), the first match (`findOneBy`), ordering by
 * a numeric key (`order: { key: 'ASC' }`) and upsert by id (`save`).
 */
module Query {
  import opened Common

  /**
   * MongoDB's ascending order on an optional number: a missing key sorts
   * before every number.
   */
  predicate KeyLe(a: Option<int>, b: Option<int>)
  {
    a.None? || (b.Some? && a.value <= b.value)
  }

  /** `s` is in ascending order of `key` (equal keys in any order). */
  predicate SortedBy<T>(s: seq<T>, key: T -> Option<int>)
  {
    forall i, j :: 0 <= i < j < |s| ==> KeyLe(key(s[i]), key(s[j]))
  }

  /** The documents of `s` that satisfy `p`, in their stored order. */
  function Select<T(==,!new)>(s: seq<T>, p: T -> bool): (r: seq<T>)
    ensures forall x :: x in r <==> x in s && p(x)
    ensures forall x :: multiset(r)[x] == if p(x) then multiset(s)[x] else 0
    ensures |r| <= |s|
  {
    if s == [] then []
    else
      var rest := Select(s[1..], p);
      assert s == [s[0]] + s[1..];
      if p(s[0]) then [s[0]] + rest else rest
  }

  /** The first document of `s` that satisfies `p`, if any. */
  function First<T(!new)>(s: seq<T>, p: T -> bool): (r: Option<T>)
    ensures r.Some? ==> r.value in s && p(r.value)
    ensures r.None? <==> forall x :: x in s ==> !p(x)
  {
    if s == [] then None
    else if p(s[0]) then Some(s[0])
    else First(s[1..], p)
  }

  /** Inserts `x` into the sorted `s`, keeping it sorted. */
  function Insert<T(==)>(x: T, s: seq<T>, key: T -> Option<int>): (r: seq<T>)
    requires SortedBy(s, key)
    ensures SortedBy(r, key)
    ensures multiset(r) == multiset(s) + multiset{x}
  {
    if s == [] then [x]
    else if KeyLe(key(x), key(s[0])) then [x] + s
    else
      var rest := Insert(x, s[1..], key);
      assert s == [s[0]] + s[1..];
      forall y | y in rest ensures KeyLe(key(s[0]), key(y)) {
        assert y in multiset(rest);
        assert y == x || y in multiset(s[1..]);
      }
      [s[0]] + rest
  }

  /** `s` ordered ascending by `key`: a sorted permutation of `s`. */
  function SortBy<T(==)>(s: seq<T>, key: T -> Option<int>): (r: seq<T>)
    ensures SortedBy(r, key)
    ensures multiset(r) == multiset(s)
  {
    if s == [] then []
    else
      assert s == [s[0]] + s[1..];
      Insert(s[0], SortBy(s[1..], key), key)
  }

  /** Documents of `s` with equal keys are equal: the key identifies the document. */
  predicate KeyIdentifies<T(==)>(s: seq<T>, key: T -> Option<int>)
  {
    forall i, j :: 0 <= i < |s| && 0 <= j < |s| && key(s[i]) == key(s[j]) ==> s[i] == s[j]
  }

  /** Two sorted permutations whose key identifies the documents start with the same document. */
  lemma SortedHeadsAgree<T>(a: seq<T>, b: seq<T>, key: T -> Option<int>)
    requires SortedBy(a, key) && SortedBy(b, key)
    requires multiset(a) == multiset(b)
    requires KeyIdentifies(a, key)
    requires a != [] && b != []
    ensures a[0] == b[0]
  {
    assert b[0] in multiset(a) && a[0] in multiset(b);
    var i :| 0 <= i < |a| && a[i] == b[0];
    var j :| 0 <= j < |b| && b[j] == a[0];
    assert KeyLe(key(a[0]), key(a[i]));
    assert KeyLe(key(b[0]), key(b[j]));
  }

  /** Removing equal heads from equal multisets leaves equal multisets. */
  lemma TailsAgree<T>(a: seq<T>, b: seq<T>)
    requires multiset(a) == multiset(b)
    requires a != [] && b != [] && a[0] == b[0]
    ensures multiset(a[1..]) == multiset(b[1..])
  {
    assert a == [a[0]] + a[1..] && b == [b[0]] + b[1..];
    assert multiset(a) == multiset{a[0]} + multiset(a[1..]);
    assert multiset(b) == multiset{b[0]} + multiset(b[1..]);
    assert multiset(a[1..]) == multiset(a) - multiset{a[0]};
    assert multiset(b[1..]) == multiset(b) - multiset{b[0]};
  }

  /**
   * When the key identifies the documents, there is only one sorted
   * permutation: the order of the result is fully determined.
   */
  lemma {:induction false} SortedPermutationUnique<T>(a: seq<T>, b: seq<T>, key: T -> Option<int>)
    requires SortedBy(a, key) && SortedBy(b, key)
    requires multiset(a) == multiset(b)
    requires KeyIdentifies(a, key)
    ensures a == b
    decreases |a|
  {
    assert |a| == |multiset(a)| == |multiset(b)| == |b|;
    if a != [] {
      SortedHeadsAgree(a, b, key);
      TailsAgree(a, b);
      var a', b' := a[1..], b[1..];
      assert SortedBy(a', key) by {
        forall i, j | 0 <= i < j < |a'| ensures KeyLe(key(a'[i]), key(a'[j])) {
          assert a'[i] == a[i + 1] && a'[j] == a[j + 1];
        }
      }
      assert SortedBy(b', key) by {
        forall i, j | 0 <= i < j < |b'| ensures KeyLe(key(b'[i]), key(b'[j])) {
          assert b'[i] == b[i + 1] && b'[j] == b[j + 1];
        }
      }
      assert KeyIdentifies(a', key) by {
        forall i, j | 0 <= i < |a'| && 0 <= j < |a'| && key(a'[i]) == key(a'[j]) ensures a'[i] == a'[j] {
          assert a'[i] == a[i + 1] && a'[j] == a[j + 1];
        }
      }
      SortedPermutationUnique(a', b', key);
      assert a == [a[0]] + a' && b == [b[0]] + b';
    }
  }

  /** Position of the document whose key is `k`, or -1. */
  function IndexOf<T>(s: seq<T>, key: T -> Id, k: Id): (i: int)
    ensures -1 <= i < |s|
    ensures i >= 0 ==> key(s[i]) == k
    ensures i == -1 <==> forall j :: 0 <= j < |s| ==> key(s[j]) != k
  {
    if s == [] then -1
    else if key(s[0]) == k then 0
    else
      var i := IndexOf(s[1..], key, k);
      if i == -1 then -1 else i + 1
  }

  /**
   * `save` of a document with an id: it replaces the stored document with
   * the same id, or is appended when there is none.
   */
  function Upsert<T>(s: seq<T>, x: T, key: T -> Id): (r: seq<T>)
  {
    var i := IndexOf(s, key, key(x));
    if i == -1 then s + [x] else s[i := x]
  }

  /** No two documents of `s` share a key (what a unique index enforces). */
  predicate DistinctKeys<T, K(==)>(s: seq<T>, key: T -> K)
  {
    forall i, j :: 0 <= i < j < |s| ==> key(s[i]) != key(s[j])
  }

  /** A selection from a collection whose keys are distinct has distinct keys. */
  lemma {:induction false} SelectKeepsDistinct<T(!new), K>(s: seq<T>, p: T -> bool, key: T -> K)
    requires DistinctKeys(s, key)
    ensures DistinctKeys(Select(s, p), key)
  {
    if s != [] {
      var rest := Select(s[1..], p);
      SelectKeepsDistinct(s[1..], p, key);
      if p(s[0]) {
        var r := [s[0]] + rest;
        forall i, j | 0 <= i < j < |r| ensures key(r[i]) != key(r[j]) {
          if i == 0 {
            assert r[j] in s[1..];
            var k :| 0 <= k < |s[1..]| && s[1..][k] == r[j];
            assert s[k + 1] == r[j];
          } else {
            assert r[i] == rest[i - 1] && r[j] == rest[j - 1];
          }
        }
      }
    }
  }

  /**
   * After an upsert the document is stored under its key, every document with
   * another key is kept, and distinct keys stay distinct.
   */
  lemma UpsertSpec<T>(s: seq<T>, x: T, key: T -> Id)
    requires DistinctKeys(s, key)
    ensures var r := Upsert(s, x, key);
      && x in r
      && DistinctKeys(r, key)
      && (forall y :: y in r ==> y == x || (y in s && key(y) != key(x)))
      && (forall y :: y in s && key(y) != key(x) ==> y in r)
      && |r| == if (exists y :: y in s && key(y) == key(x)) then |s| else |s| + 1
  {
    var i := IndexOf(s, key, key(x));
    var r := Upsert(s, x, key);
    if i == -1 {
      assert r == s + [x];
      assert forall y :: y in s ==> key(y) != key(x);
    } else {
      assert r == s[i := x];
      assert r[i] == x;
      forall y | y in r ensures y == x || (y in s && key(y) != key(x)) {
        var j :| 0 <= j < |r| && r[j] == y;
        if j != i {
          assert y == s[j];
        }
      }
      forall y | y in s && key(y) != key(x) ensures y in r {
        var j :| 0 <= j < |s| && s[j] == y;
        assert j != i;
        assert r[j] == y;
      }
    }
  }
}
