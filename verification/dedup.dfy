/**
 Keeping the first element per key, the idiom `if k not in seen:
 seen.add(k); out.append(x)` that both the choice-group attachment of the
 schema loader and the validation engine use.
 */
module Dedup {
  import opened Wrappers

  /** `a` is `b` with some elements left out, the rest in the same order. */
  predicate Subseq<T(==)>(a: seq<T>, b: seq<T>)
  {
    if a == [] then true
    else if b == [] then false
    else if a[0] == b[0] then Subseq(a[1..], b[1..])
    else Subseq(a, b[1..])
  }

  lemma {:induction false} SubseqRefl<T>(a: seq<T>)
    ensures Subseq(a, a)
  {
    if a != [] {
      SubseqRefl(a[1..]);
    }
  }

  lemma {:induction false} SubseqMembers<T>(a: seq<T>, b: seq<T>)
    requires Subseq(a, b)
    ensures forall x :: x in a ==> x in b
  {
    if a != [] && b != [] {
      if a[0] == b[0] {
        SubseqMembers(a[1..], b[1..]);
        assert forall x :: x in a ==> x == a[0] || x in a[1..];
      } else {
        SubseqMembers(a, b[1..]);
      }
    }
  }

  /** An element that `a` does not contain can be put in front of `b`. */
  lemma SubseqSkip<T>(x: T, a: seq<T>, b: seq<T>)
    requires Subseq(a, b) && x !in a
    ensures Subseq(a, [x] + b)
  {
    assert ([x] + b)[1..] == b;
  }

  /** The keys occurring in `s`. */
  function KeySet<T, K>(s: seq<T>, key: T -> K): (ks: set<K>)
    ensures forall i :: 0 <= i < |s| ==> key(s[i]) in ks
    ensures forall k :: k in ks ==> exists i :: 0 <= i < |s| && key(s[i]) == k
  {
    if s == [] then {}
    else
      var rest := KeySet(s[1..], key);
      assert forall i :: 1 <= i < |s| ==> s[i] == s[1..][i - 1];
      {key(s[0])} + rest
  }

  /** The first element of `s` whose key is `k`. */
  function FirstWithKey<T(==), K(==)>(s: seq<T>, key: T -> K, k: K): (r: Option<T>)
    ensures r.None? <==> forall i :: 0 <= i < |s| ==> key(s[i]) != k
    ensures r.Some? ==> exists i :: (0 <= i < |s| && s[i] == r.value && key(s[i]) == k &&
      forall j :: 0 <= j < i ==> key(s[j]) != k)
  {
    if s == [] then None
    else if key(s[0]) == k then Some(s[0])
    else
      var r := FirstWithKey(s[1..], key, k);
      assert forall i :: 1 <= i < |s| ==> s[i] == s[1..][i - 1];
      if r.Some? then
        var i :| 0 <= i < |s[1..]| && s[1..][i] == r.value && key(s[1..][i]) == k &&
          forall j :: 0 <= j < i ==> key(s[1..][j]) != k;
        assert s[i + 1] == r.value && forall j :: 0 <= j < i + 1 ==> key(s[j]) != k;
        r
      else r
  }

  /** Keys pairwise different. */
  predicate DistinctBy<T, K(==)>(s: seq<T>, key: T -> K)
  {
    forall i, j :: 0 <= i < j < |s| ==> key(s[i]) != key(s[j])
  }

  /** The elements of `s` whose key is not in `seen` and did not occur earlier in `s`. */
  function DedupFrom<T(==), K(==)>(s: seq<T>, key: T -> K, seen: set<K>): (r: seq<T>)
    ensures Subseq(r, s)
    ensures DistinctBy(r, key)
    ensures forall i :: 0 <= i < |r| ==> key(r[i]) !in seen
    ensures KeySet(r, key) == KeySet(s, key) - seen
    ensures forall i :: 0 <= i < |r| ==> FirstWithKey(s, key, key(r[i])) == Some(r[i])
  {
    if s == [] then []
    else
      var x := s[0];
      assert forall i :: 1 <= i < |s| ==> s[i] == s[1..][i - 1];
      if key(x) in seen then
        var r := DedupFrom(s[1..], key, seen);
        assert KeySet(s, key) == {key(x)} + KeySet(s[1..], key);
        r
      else
        var rest := DedupFrom(s[1..], key, seen + {key(x)});
        var r := [x] + rest;
        SubseqMembers(rest, s[1..]);
        assert KeySet(s, key) == {key(x)} + KeySet(s[1..], key);
        assert KeySet(r, key) == {key(x)} + KeySet(rest, key) by {
          assert forall i :: 1 <= i < |r| ==> r[i] == rest[i - 1];
        }
        assert r[1..] == rest;
        r
  }

  /** `s` with only the first element per key. */
  function DedupBy<T(==), K(==)>(s: seq<T>, key: T -> K): (r: seq<T>)
    ensures Subseq(r, s)
    ensures DistinctBy(r, key)
    ensures KeySet(r, key) == KeySet(s, key)
    ensures forall i :: 0 <= i < |r| ==> FirstWithKey(s, key, key(r[i])) == Some(r[i])
  {
    DedupFrom(s, key, {})
  }

  /** Nothing is dropped from a sequence whose keys are already distinct. */
  lemma {:induction false} DedupFromDistinct<T, K>(s: seq<T>, key: T -> K, seen: set<K>)
    requires DistinctBy(s, key)
    requires forall i :: 0 <= i < |s| ==> key(s[i]) !in seen
    ensures DedupFrom(s, key, seen) == s
  {
    if s != [] {
      DedupFromDistinct(s[1..], key, seen + {key(s[0])});
    }
  }

  /** Keeping first occurrences twice is the same as once. */
  lemma DedupIdempotent<T, K>(s: seq<T>, key: T -> K)
    ensures DedupBy(DedupBy(s, key), key) == DedupBy(s, key)
  {
    DedupFromDistinct(DedupBy(s, key), key, {});
  }
}
