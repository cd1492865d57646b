/**
  List operations shared by the front-end components: removing the entries with a given key
  (JavaScript's `filter` with `x.id !== id`) and concatenating a list of lists.
 */
module Lists {

  /** `a` is a subsequence of `b`: `a` can be obtained by deleting elements of `b` without reordering. */
  ghost predicate IsSubsequence<T>(a: seq<T>, b: seq<T>)
    decreases |b|
  {
    a == [] || (b != [] && (IsSubsequence(a, b[1..]) || (a[0] == b[0] && IsSubsequence(a[1..], b[1..]))))
  }

  /** Number of entries of `s` whose key is `k`. */
  function CountKey<T, K(==)>(s: seq<T>, key: T -> K, k: K): (n: nat)
    ensures n <= |s|
  {
    if s == [] then 0 else (if key(s[0]) == k then 1 else 0) + CountKey(s[1..], key, k)
  }

  /** The entries of `s` whose key is not `k`, in their original order. */
  function RemoveKey<T(!new), K(==)>(s: seq<T>, key: T -> K, k: K): (r: seq<T>)
    ensures forall x :: x in r <==> x in s && key(x) != k
  {
    if s == [] then []
    else if key(s[0]) == k then RemoveKey(s[1..], key, k)
    else [s[0]] + RemoveKey(s[1..], key, k)
  }

  /** Removing keeps every other entry with its multiplicity and the relative order of all of them. */
  lemma {:induction false} RemoveKeyKeepsOthers<T(!new), K>(s: seq<T>, key: T -> K, k: K)
    ensures IsSubsequence(RemoveKey(s, key, k), s)
    ensures forall x :: multiset(RemoveKey(s, key, k))[x] == if key(x) == k then 0 else multiset(s)[x]
  {
    if s != [] {
      RemoveKeyKeepsOthers(s[1..], key, k);
      assert s == [s[0]] + s[1..];
      assert multiset(s) == multiset{s[0]} + multiset(s[1..]);
      if key(s[0]) != k {
        var r := RemoveKey(s, key, k);
        assert r[0] == s[0] && r[1..] == RemoveKey(s[1..], key, k);
      }
    }
  }

  /** The new length is the old length minus the number of entries carrying the key. */
  lemma {:induction false} RemoveKeyLength<T(!new), K>(s: seq<T>, key: T -> K, k: K)
    ensures |RemoveKey(s, key, k)| == |s| - CountKey(s, key, k)
  {
    if s != [] {
      RemoveKeyLength(s[1..], key, k);
    }
  }

  /** A key that no entry carries leaves the list as it was. */
  lemma {:induction false} RemoveAbsentKey<T(!new), K>(s: seq<T>, key: T -> K, k: K)
    requires forall x :: x in s ==> key(x) != k
    ensures RemoveKey(s, key, k) == s
  {
    if s != [] {
      assert s[0] in s;
      assert forall x :: x in s[1..] ==> x in s;
      RemoveAbsentKey(s[1..], key, k);
      assert s == [s[0]] + s[1..];
    }
  }

  /** Removing the same key twice is the same as removing it once. */
  lemma RemoveKeyIdempotent<T(!new), K>(s: seq<T>, key: T -> K, k: K)
    ensures RemoveKey(RemoveKey(s, key, k), key, k) == RemoveKey(s, key, k)
  {
    RemoveAbsentKey(RemoveKey(s, key, k), key, k);
  }

  /** The lists of `ss` one after the other. */
  function Concat<T>(ss: seq<seq<T>>): (r: seq<T>)
  {
    if ss == [] then [] else ss[0] + Concat(ss[1..])
  }

  lemma {:induction false} ConcatAppend<T>(ss: seq<seq<T>>, t: seq<T>)
    ensures Concat(ss + [t]) == Concat(ss) + t
  {
    if ss == [] {
      assert [] + [t] == [t];
    } else {
      assert (ss + [t])[1..] == ss[1..] + [t];
      ConcatAppend(ss[1..], t);
    }
  }
}
