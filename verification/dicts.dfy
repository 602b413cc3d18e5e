/**
 Python `dict` values as insertion-ordered sequences of entries. Keys are
 strings; `DistinctKeys` is the invariant every Python dict keeps, and `Put`
 is item assignment (a present key keeps its place, a new key goes last).
 */
module Dicts {
  import opened Wrappers

  datatype Entry<V> = Entry(key: string, val: V)

  type Dict<V> = seq<Entry<V>>

  function Keys<V>(d: Dict<V>): (ks: seq<string>)
    ensures |ks| == |d|
    ensures forall i :: 0 <= i < |d| ==> ks[i] == d[i].key
  {
    seq(|d|, i requires 0 <= i < |d| => d[i].key)
  }

  /** No key occurs twice, as in every Python dict. */
  predicate DistinctKeys<V>(d: Dict<V>)
  {
    forall i, j :: 0 <= i < j < |d| ==> d[i].key != d[j].key
  }

  /** Position of `k`, if present. */
  function IndexOf<V>(d: Dict<V>, k: string): (r: Option<nat>)
    ensures r.Some? ==> r.value < |d| && d[r.value].key == k
    ensures r.Some? ==> forall j :: 0 <= j < r.value ==> d[j].key != k
    ensures r.None? <==> k !in Keys(d)
  {
    if d == [] then None
    else if d[0].key == k then Some(0)
    else match IndexOf(d[1..], k)
      case None =>
        assert Keys(d) == [d[0].key] + Keys(d[1..]);
        None
      case Some(i) => Some(i + 1)
  }

  /** `d.get(k)`. */
  function Get<V>(d: Dict<V>, k: string): (r: Option<V>)
    ensures r.Some? <==> k in Keys(d)
    ensures r.Some? ==> Entry(k, r.value) in d
  {
    match IndexOf(d, k)
    case None => None
    case Some(i) => Some(d[i].val)
  }

  lemma GetAt<V>(d: Dict<V>, i: nat)
    requires DistinctKeys(d) && i < |d|
    ensures Get(d, d[i].key) == Some(d[i].val)
  {
  }

  lemma GetCons<V>(e: Entry<V>, d: Dict<V>, k: string)
    ensures Get([e] + d, k) == if e.key == k then Some(e.val) else Get(d, k)
  {
    if e.key != k {
      assert ([e] + d)[1..] == d;
    }
  }

  /** A one-entry dict. */
  lemma GetSingle<V>(k: string, v: V, other: string)
    requires k != other
    ensures Get([Entry(k, v)], k) == Some(v) && Get([Entry(k, v)], other) == None
    ensures Keys([Entry(k, v)]) == [k] && DistinctKeys([Entry(k, v)])
  {
    assert Keys([Entry(k, v)]) == [k];
  }

  /** A two-entry dict with different keys. */
  lemma GetPair<V>(k1: string, v1: V, k2: string, v2: V)
    requires k1 != k2
    ensures Get([Entry(k1, v1), Entry(k2, v2)], k1) == Some(v1)
    ensures Get([Entry(k1, v1), Entry(k2, v2)], k2) == Some(v2)
    ensures Keys([Entry(k1, v1), Entry(k2, v2)]) == [k1, k2] && DistinctKeys([Entry(k1, v1), Entry(k2, v2)])
  {
    var d := [Entry(k1, v1), Entry(k2, v2)];
    assert Keys(d) == [k1, k2];
    assert IndexOf(d, k2) == Some(1) by {
      assert d[1..] == [Entry(k2, v2)];
    }
  }

  /** Appending an entry under a new key keeps the keys distinct and every other lookup. */
  lemma AppendFresh<V>(d: Dict<V>, e: Entry<V>)
    requires DistinctKeys(d) && e.key !in Keys(d)
    ensures DistinctKeys(d + [e])
    ensures Get(d + [e], e.key) == Some(e.val)
    ensures forall k :: k != e.key ==> Get(d + [e], k) == Get(d, k)
  {
    var r := d + [e];
    forall i, j | 0 <= i < j < |r| ensures r[i].key != r[j].key {
      if j == |d| {
        assert Keys(d)[i] == d[i].key;
      }
    }
    GetAppend(d, e, e.key);
    forall k | k != e.key ensures Get(r, k) == Get(d, k) {
      GetAppend(d, e, k);
    }
  }

  lemma KeysCons<V>(e: Entry<V>, d: Dict<V>)
    ensures Keys([e] + d) == [e.key] + Keys(d)
  {
    var l := Keys([e] + d);
    var r := [e.key] + Keys(d);
    assert |l| == |r|;
    forall i | 0 <= i < |l| ensures l[i] == r[i] {
      if i > 0 {
        assert ([e] + d)[i] == d[i - 1];
      }
    }
  }

  /** `d[k] = v`. */
  function Put<V>(d: Dict<V>, k: string, v: V): (r: Dict<V>)
    ensures Keys(r) == if k in Keys(d) then Keys(d) else Keys(d) + [k]
    ensures Get(r, k) == Some(v)
    ensures forall k' :: k' != k ==> Get(r, k') == Get(d, k')
    ensures DistinctKeys(d) ==> DistinctKeys(r)
  {
    match IndexOf(d, k)
    case None =>
      AppendFacts(d, k, v);
      d + [Entry(k, v)]
    case Some(i) =>
      UpdateFacts(d, i, k, v);
      d[i := Entry(k, v)]
  }

  /** Appending an entry for a new key. */
  lemma AppendFacts<V>(d: Dict<V>, k: string, v: V)
    requires k !in Keys(d)
    ensures var r := d + [Entry(k, v)];
      && Keys(r) == Keys(d) + [k]
      && Get(r, k) == Some(v)
      && (forall k' :: k' != k ==> Get(r, k') == Get(d, k'))
      && (DistinctKeys(d) ==> DistinctKeys(r))
  {
    var r := d + [Entry(k, v)];
    assert Keys(r) == Keys(d) + [k];
    forall k' | k' != k ensures IndexOf(r, k') == IndexOf(d, k') {
      IndexOfAppend(d, Entry(k, v), k');
    }
    IndexOfAppend(d, Entry(k, v), k);
    if DistinctKeys(d) {
      forall j | 0 <= j < |d| ensures d[j].key != k {
        assert Keys(d)[j] == d[j].key;
      }
    }
  }

  /** Overwriting the entry at the position of `k`. */
  lemma UpdateFacts<V>(d: Dict<V>, i: nat, k: string, v: V)
    requires IndexOf(d, k) == Some(i)
    ensures var r := d[i := Entry(k, v)];
      && Keys(r) == Keys(d)
      && Get(r, k) == Some(v)
      && (forall k' :: k' != k ==> Get(r, k') == Get(d, k'))
      && (DistinctKeys(d) ==> DistinctKeys(r))
  {
    var r := d[i := Entry(k, v)];
    assert Keys(r) == Keys(d);
    forall k' ensures IndexOf(r, k') == IndexOf(d, k') {
      IndexOfSameKeys(d, r, k');
    }
  }

  lemma {:induction false} IndexOfAppend<V>(d: Dict<V>, e: Entry<V>, k: string)
    ensures IndexOf(d + [e], k) == if k in Keys(d) then IndexOf(d, k) else if e.key == k then Some(|d|) else None
  {
    if d != [] {
      assert (d + [e])[1..] == d[1..] + [e];
      IndexOfAppend(d[1..], e, k);
      assert Keys(d) == [d[0].key] + Keys(d[1..]);
    }
  }

  lemma {:induction false} IndexOfSameKeys<V, W>(d: Dict<V>, r: Dict<W>, k: string)
    requires Keys(d) == Keys(r)
    ensures IndexOf(d, k) == IndexOf(r, k)
  {
    if d != [] {
      assert Keys(d[1..]) == Keys(d)[1..];
      assert Keys(r[1..]) == Keys(r)[1..];
      IndexOfSameKeys(d[1..], r[1..], k);
    }
  }

  /** `del d[k]` / `d.pop(k, None)`: the entries for other keys, in order. */
  function Remove<V>(d: Dict<V>, k: string): (r: Dict<V>)
    ensures k !in Keys(r)
    ensures forall k' :: k' != k ==> Get(r, k') == Get(d, k')
    ensures forall k' :: k' in Keys(r) <==> k' in Keys(d) && k' != k
    ensures DistinctKeys(d) ==> DistinctKeys(r)
    ensures |r| <= |d|
  {
    if d == [] then []
    else
      var rest := Remove(d[1..], k);
      RemoveStep(d[0], d[1..], k, rest);
      assert d == [d[0]] + d[1..];
      if d[0].key == k then rest else [d[0]] + rest
  }

  /** One step of `Remove`: what holds of the removal from the tail carries over to the whole. */
  lemma RemoveStep<V>(x: Entry<V>, t: Dict<V>, k: string, rest: Dict<V>)
    requires k !in Keys(rest)
    requires forall k' :: k' != k ==> Get(rest, k') == Get(t, k')
    requires forall k' :: k' in Keys(rest) <==> k' in Keys(t) && k' != k
    requires DistinctKeys(t) ==> DistinctKeys(rest)
    ensures var r := if x.key == k then rest else [x] + rest;
      && k !in Keys(r)
      && (forall k' :: k' != k ==> Get(r, k') == Get([x] + t, k'))
      && (forall k' :: k' in Keys(r) <==> k' in Keys([x] + t) && k' != k)
      && (DistinctKeys([x] + t) ==> DistinctKeys(r))
  {
    KeysCons(x, t);
    KeysCons(x, rest);
    RemoveStepGet(x, t, k, rest);
    if DistinctKeys([x] + t) {
      DistinctCons(x, t);
    }
  }

  lemma RemoveStepGet<V>(x: Entry<V>, t: Dict<V>, k: string, rest: Dict<V>)
    requires forall k' :: k' != k ==> Get(rest, k') == Get(t, k')
    ensures var r := if x.key == k then rest else [x] + rest;
      forall k' :: k' != k ==> Get(r, k') == Get([x] + t, k')
  {
    forall k' ensures Get([x] + t, k') == if x.key == k' then Some(x.val) else Get(t, k') {
      GetCons(x, t, k');
    }
    forall k' ensures Get([x] + rest, k') == if x.key == k' then Some(x.val) else Get(rest, k') {
      GetCons(x, rest, k');
    }
  }

  /** The tail of a dict with distinct keys has distinct keys, none of them the head's. */
  lemma DistinctCons<V>(x: Entry<V>, t: Dict<V>)
    requires DistinctKeys([x] + t)
    ensures DistinctKeys(t) && x.key !in Keys(t)
  {
    assert ([x] + t)[1..] == t;
    forall i | 0 <= i < |t| ensures Keys(t)[i] != x.key {
      assert ([x] + t)[i + 1] == t[i];
      assert ([x] + t)[0].key != ([x] + t)[i + 1].key;
    }
  }

  /** The entries whose key satisfies `keep`, in order (a dict comprehension with a filter). */
  function Filter<V(!new)>(d: Dict<V>, keep: string -> bool): (r: Dict<V>)
    ensures |r| <= |d|
    ensures forall e :: e in r <==> e in d && keep(e.key)
  {
    if d == [] then []
    else
      var rest := Filter(d[1..], keep);
      assert forall e :: e in d <==> e == d[0] || e in d[1..];
      if keep(d[0].key) then [d[0]] + rest else rest
  }

  lemma FilterKeys<V(!new)>(d: Dict<V>, keep: string -> bool)
    ensures forall k :: k in Keys(Filter(d, keep)) <==> k in Keys(d) && keep(k)
  {
    var r := Filter(d, keep);
    forall k ensures k in Keys(r) <==> k in Keys(d) && keep(k) {
      if k in Keys(r) {
        var i :| 0 <= i < |r| && Keys(r)[i] == k;
        assert r[i] in d;
        var j :| 0 <= j < |d| && d[j] == r[i];
        assert Keys(d)[j] == k;
      }
      if k in Keys(d) && keep(k) {
        var j :| 0 <= j < |d| && Keys(d)[j] == k;
        assert d[j] in r;
        var i :| 0 <= i < |r| && r[i] == d[j];
        assert Keys(r)[i] == k;
      }
    }
  }

  lemma {:induction false} FilterDistinct<V(!new)>(d: Dict<V>, keep: string -> bool)
    requires DistinctKeys(d)
    ensures DistinctKeys(Filter(d, keep))
  {
    if d != [] {
      FilterDistinct(d[1..], keep);
      var rest := Filter(d[1..], keep);
      forall e | e in rest ensures e.key != d[0].key {
        assert e in d[1..];
      }
    }
  }

  /** A key the filter keeps is looked up as before. */
  lemma {:induction false} FilterGet<V(!new)>(d: Dict<V>, keep: string -> bool)
    ensures forall k :: keep(k) ==> Get(Filter(d, keep), k) == Get(d, k)
  {
    if d != [] {
      FilterGet(d[1..], keep);
      assert d == [d[0]] + d[1..];
      forall k | keep(k) ensures Get(Filter(d, keep), k) == Get(d, k) {
        GetCons(d[0], d[1..], k);
        if keep(d[0].key) {
          GetCons(d[0], Filter(d[1..], keep), k);
        }
      }
    }
  }

  /** Concatenation of `f(key, value)` over the entries, in order. */
  function FlatMap<V(!new), R(!new)>(d: Dict<V>, f: (string, V) -> seq<R>): (r: seq<R>)
    ensures forall x :: x in r <==> exists i :: 0 <= i < |d| && x in f(d[i].key, d[i].val)
  {
    if d == [] then []
    else
      var rest := FlatMap(d[1..], f);
      assert forall x :: x in rest <==> exists i :: 1 <= i < |d| && x in f(d[i].key, d[i].val) by {
        forall x ensures x in rest <==> exists i :: 1 <= i < |d| && x in f(d[i].key, d[i].val) {
          if x in rest {
            var i :| 0 <= i < |d[1..]| && x in f(d[1..][i].key, d[1..][i].val);
            assert x in f(d[i + 1].key, d[i + 1].val);
          }
          if exists i :: 1 <= i < |d| && x in f(d[i].key, d[i].val) {
            var i :| 1 <= i < |d| && x in f(d[i].key, d[i].val);
            assert d[1..][i - 1] == d[i];
          }
        }
      }
      f(d[0].key, d[0].val) + rest
  }

  /** Appending an entry: earlier keys shadow it. */
  lemma GetAppend<V>(d: Dict<V>, e: Entry<V>, k: string)
    ensures Get(d + [e], k) == if k in Keys(d) then Get(d, k) else if e.key == k then Some(e.val) else None
  {
    IndexOfAppend(d, e, k);
  }

  /** `for k, v in es: d[k] = v`: the last assignment to a key wins. */
  function PutAll<V>(d: Dict<V>, es: seq<Entry<V>>): (r: Dict<V>)
    ensures forall k :: k in Keys(r) <==> k in Keys(d) || k in Keys(es)
    ensures forall k :: k !in Keys(es) ==> Get(r, k) == Get(d, k)
    ensures forall k :: k in Keys(es) ==> Get(r, k).Some? && Entry(k, Get(r, k).value) in es
    ensures DistinctKeys(d) ==> DistinctKeys(r)
    decreases |es|
  {
    if es == [] then d
    else
      assert Keys(es) == [es[0].key] + Keys(es[1..]);
      PutAll(Put(d, es[0].key, es[0].val), es[1..])
  }

  /** Storing the value a key already has changes nothing. */
  lemma PutSame<V>(d: Dict<V>, k: string, v: V)
    requires Get(d, k) == Some(v)
    ensures Put(d, k, v) == d
  {
  }

  /** Removing an absent key changes nothing. */
  lemma {:induction false} RemoveAbsent<V>(d: Dict<V>, k: string)
    requires k !in Keys(d)
    ensures Remove(d, k) == d
  {
    if d != [] {
      assert d == [d[0]] + d[1..];
      KeysCons(d[0], d[1..]);
      RemoveAbsent(d[1..], k);
      RemoveCons(d[0], d[1..], k);
    }
  }

  lemma RemoveCons<V>(x: Entry<V>, d: Dict<V>, k: string)
    ensures Remove([x] + d, k) == if x.key == k then Remove(d, k) else [x] + Remove(d, k)
  {
    assert ([x] + d)[1..] == d;
  }

  /** Removing the key of an appended entry that no earlier entry has gives back the prefix. */
  lemma {:induction false} RemoveAppended<V>(d: Dict<V>, k: string, v: V)
    requires k !in Keys(d)
    ensures Remove(d + [Entry(k, v)], k) == d
  {
    if d != [] {
      var t := d[1..];
      assert d == [d[0]] + t;
      assert Keys(d)[0] == d[0].key;
      assert k !in Keys(t) by {
        forall i | 0 <= i < |t| ensures Keys(t)[i] != k {
          assert Keys(t)[i] == Keys(d)[i + 1];
        }
      }
      RemoveAppended(t, k, v);
      RemoveAppendedStep(d[0], t, k, v);
    } else {
      assert ([Entry(k, v)])[1..] == [];
    }
  }

  lemma RemoveAppendedStep<V>(x: Entry<V>, t: Dict<V>, k: string, v: V)
    requires x.key != k && Remove(t + [Entry(k, v)], k) == t
    ensures Remove([x] + t + [Entry(k, v)], k) == [x] + t
  {
    assert [x] + t + [Entry(k, v)] == [x] + (t + [Entry(k, v)]);
    RemoveCons(x, t + [Entry(k, v)], k);
  }

  /** Overwriting an entry for `k` does not change what removing `k` leaves. */
  lemma {:induction false} RemoveUpdate<V>(d: Dict<V>, i: nat, k: string, v: V)
    requires i < |d| && d[i].key == k
    ensures Remove(d[i := Entry(k, v)], k) == Remove(d, k)
  {
    var t := d[1..];
    assert d == [d[0]] + t;
    RemoveCons(d[0], t, k);
    if i == 0 {
      assert d[i := Entry(k, v)] == [Entry(k, v)] + t;
      RemoveCons(Entry(k, v), t, k);
    } else {
      RemoveUpdate(t, i - 1, k, v);
      assert d[i := Entry(k, v)] == [d[0]] + t[i - 1 := Entry(k, v)];
      RemoveCons(d[0], t[i - 1 := Entry(k, v)], k);
    }
  }

  /** `d[k] = v` followed by `del d[k]` is `del d[k]`. */
  lemma RemovePut<V>(d: Dict<V>, k: string, v: V)
    ensures Remove(Put(d, k, v), k) == Remove(d, k)
  {
    match IndexOf(d, k)
    case None =>
      RemoveAppended(d, k, v);
      RemoveAbsent(d, k);
    case Some(i) =>
      RemoveUpdate(d, i, k, v);
  }

  /** In a dict with distinct keys no entry occurs twice. */
  lemma {:induction false} CountAtMostOne<V>(d: Dict<V>, e: Entry<V>)
    requires DistinctKeys(d)
    ensures multiset(d)[e] <= 1
  {
    if d != [] {
      assert d == [d[0]] + d[1..];
      CountAtMostOne(d[1..], e);
      if d[0] == e {
        forall m | 0 <= m < |d[1..]| ensures d[1..][m] != e {
          assert d[1..][m] == d[m + 1];
        }
        assert e !in d[1..];
      }
    }
  }

  /**
   A rearrangement of a dict with distinct keys has distinct keys and the
   same contents: what `{k: d[k] for k in sorted(d, ...)}` relies on.
   */
  lemma PermutedDict<V>(a: Dict<V>, b: Dict<V>)
    requires multiset(a) == multiset(b) && DistinctKeys(a)
    ensures DistinctKeys(b)
    ensures forall k :: Get(b, k) == Get(a, k)
  {
    forall i, j | 0 <= i < j < |b| ensures b[i].key != b[j].key {
      PermutedDistinct(a, b, i, j);
    }
    forall k ensures Get(b, k) == Get(a, k) {
      if Get(b, k).Some? {
        var x := Entry(k, Get(b, k).value);
        assert x in multiset(a);
        var p :| 0 <= p < |a| && a[p] == x;
        GetAt(a, p);
      } else {
        assert forall v :: Entry(k, v) in a ==> Entry(k, v) in multiset(b);
      }
    }
  }

  lemma PermutedDistinct<V>(a: Dict<V>, b: Dict<V>, i: nat, j: nat)
    requires multiset(a) == multiset(b) && DistinctKeys(a)
    requires i < j < |b|
    ensures b[i].key != b[j].key
  {
    if b[i] == b[j] {
      assert b == b[..j] + b[j..];
      assert b[i] == b[..j][i];
      assert b[j] == b[j..][0];
      assert multiset(b)[b[i]] == multiset(b[..j])[b[i]] + multiset(b[j..])[b[i]];
      CountAtMostOne(a, b[i]);
    } else {
      assert b[i] in multiset(a) && b[j] in multiset(a);
      var p :| 0 <= p < |a| && a[p] == b[i];
      var q :| 0 <= q < |a| && a[q] == b[j];
      assert p != q;
    }
  }

  /** Python dict equality: the same keys mapped to the same values, in any order. */
  ghost predicate SameContents<V>(a: Dict<V>, b: Dict<V>)
  {
    forall k :: Get(a, k) == Get(b, k)
  }
}
