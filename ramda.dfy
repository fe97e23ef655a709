/**
 * The list and map primitives the reconciliation is built from: the Ramda
 * library functions `indexBy`, `keys` of the resulting object, `uniq` and
 * `intersection`, and `Filter`, which stands both for the native
 * `Array.prototype.filter` and for the filtering inside Ramda's `intersection`.
 */
module Ramda {
  import opened Wrappers

  /** No element occurs twice. */
  predicate Distinct<T(==)>(s: seq<T>) {
    forall i, j :: 0 <= i < j < |s| ==> s[i] != s[j]
  }

  /** The elements of `s` that satisfy `p`, in their order. */
  function Filter<T(!new)>(p: T -> bool, s: seq<T>): (r: seq<T>)
    ensures |r| <= |s|
    ensures forall x :: x in r <==> x in s && p(x)
    ensures Distinct(s) ==> Distinct(r)
  {
    if s == [] then []
    else
      var rest := Filter(p, s[1..]);
      if p(s[0]) then [s[0]] + rest else rest
  }

  /** `s` with every repeated element dropped; the body keeps each element's first occurrence, in order. */
  function Uniq<T(==,!new)>(s: seq<T>): (r: seq<T>)
    ensures |r| <= |s|
    ensures Distinct(r)
    ensures forall x :: x in r <==> x in s
  {
    if s == [] then []
    else
      var last := s[|s| - 1];
      assert s == s[..|s| - 1] + [last];
      var r := Uniq(s[..|s| - 1]);
      if last in r then r else r + [last]
  }

  /**
   * The elements common to both lists, without repetition. As in Ramda, the
   * body filters the shorter list (the first one on a tie) by membership in
   * the other; the contract does not state the resulting order.
   */
  function Intersection<T(==,!new)>(list1: seq<T>, list2: seq<T>): (r: seq<T>)
    ensures Distinct(r)
    ensures forall x :: x in r <==> x in list1 && x in list2
    ensures |r| <= |list1| && |r| <= |list2|
  {
    if |list1| > |list2| then Uniq(Filter(x => x in list1, list2))
    else Uniq(Filter(x => x in list2, list1))
  }

  /**
   * `indexBy(key, s)`: a left fold over `s` from the empty map, storing each
   * element under its key. Every entry is an element of `s` stored under its
   * own key; IndexByLastWins says which element.
   */
  function IndexBy<T(!new), K(!new)>(key: T -> K, s: seq<T>): (r: map<K, T>)
    ensures forall k :: k in r ==> r[k] in s && key(r[k]) == k
  {
    IndexInto(key, map[], s)
  }

  /**
   * The fold step by step: a later element stored under a key replaces an
   * earlier one. Every key of `acc` stays; every entry is either an element
   * of `s` stored under its own key or the entry `acc` had.
   */
  function IndexInto<T(!new), K(!new)>(key: T -> K, acc: map<K, T>, s: seq<T>): (r: map<K, T>)
    ensures acc.Keys <= r.Keys
    ensures forall k :: k in r ==> (r[k] in s && key(r[k]) == k) || (k in acc && r[k] == acc[k])
    decreases |s|
  {
    if s == [] then acc
    else
      assert forall x :: x in s[1..] ==> x in s;
      IndexInto(key, acc[key(s[0]) := s[0]], s[1..])
  }

  /**
   * Reference definition of last-write-wins: the last element of `s` whose
   * key is `k`, if there is one.
   */
  function LastWithKey<T, K(==)>(key: T -> K, s: seq<T>, k: K): Option<T> {
    if s == [] then None
    else
      match LastWithKey(key, s[1..], k)
      case Some(x) => Some(x)
      case None => if key(s[0]) == k then Some(s[0]) else None
  }

  /** Position `i` holds the last element of `s` whose key is `k`. */
  ghost predicate IsLastWithKey<T, K>(key: T -> K, s: seq<T>, k: K, i: int) {
    0 <= i < |s| && key(s[i]) == k && forall j :: i < j < |s| ==> key(s[j]) != k
  }

  /** LastWithKey finds nothing exactly when no element has key `k`, and otherwise the last one that has. */
  lemma {:induction false} LastWithKeyIsLast<T, K>(key: T -> K, s: seq<T>, k: K)
    ensures LastWithKey(key, s, k).None? <==> forall i :: 0 <= i < |s| ==> key(s[i]) != k
    ensures LastWithKey(key, s, k).Some? ==>
      exists i :: IsLastWithKey(key, s, k, i) && s[i] == LastWithKey(key, s, k).value
  {
    if s != [] {
      LastWithKeyIsLast(key, s[1..], k);
      match LastWithKey(key, s[1..], k)
      case Some(x) =>
        var i :| IsLastWithKey(key, s[1..], k, i) && s[1..][i] == x;
        assert IsLastWithKey(key, s, k, i + 1);
      case None =>
        if key(s[0]) == k {
          assert IsLastWithKey(key, s, k, 0);
        }
    }
  }

  /** The fold from `acc` agrees with the reference definition, falling back to `acc` for keys `s` lacks. */
  lemma {:induction false} IndexIntoLookup<T(!new), K(!new)>(key: T -> K, acc: map<K, T>, s: seq<T>, k: K)
    ensures Lookup(IndexInto(key, acc, s), k) ==
      match LastWithKey(key, s, k)
      case Some(x) => Some(x)
      case None => Lookup(acc, k)
    decreases |s|
  {
    if s != [] {
      IndexIntoLookup(key, acc[key(s[0]) := s[0]], s[1..], k);
    }
  }

  /**
   * indexBy is last-write-wins: the entry under any key is the last element
   * with that key, and there is an entry exactly for the keys of the input.
   */
  lemma IndexByLastWins<T(!new), K(!new)>(key: T -> K, s: seq<T>)
    ensures forall k :: Lookup(IndexBy(key, s), k) == LastWithKey(key, s, k)
    ensures forall k :: k in IndexBy(key, s) <==> exists i :: 0 <= i < |s| && key(s[i]) == k
    ensures var index := IndexBy(key, s);
      forall k :: k in index ==> exists i :: IsLastWithKey(key, s, k, i) && index[k] == s[i]
  {
    var index := IndexBy(key, s);
    forall k
      ensures Lookup(index, k) == LastWithKey(key, s, k)
      ensures k in index <==> exists i :: 0 <= i < |s| && key(s[i]) == k
    {
      IndexIntoLookup(key, map[], s, k);
      LastWithKeyIsLast(key, s, k);
    }
    forall k | k in index
      ensures exists i :: IsLastWithKey(key, s, k, i) && index[k] == s[i]
    {
      LastWithKeyIsLast(key, s, k);
      assert Lookup(index, k) == LastWithKey(key, s, k);
    }
  }

  /**
   * `keys(indexBy(key, s))`: the keys of the index. The body lists them in
   * the order they were first stored (overwriting a property does not move
   * it); the contract does not state that order.
   */
  function IndexKeys<T(!new), K(==,!new)>(key: T -> K, s: seq<T>): (r: seq<K>)
    ensures Distinct(r)
    ensures forall k :: k in r <==> k in IndexBy(key, s)
  {
    IndexByLastWins(key, s);
    var keys := seq(|s|, i requires 0 <= i < |s| => key(s[i]));
    assert forall i :: 0 <= i < |s| ==> keys[i] == key(s[i]);
    Uniq(keys)
  }
}
