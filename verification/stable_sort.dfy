/**
 Python's `sorted(xs, key=...)` for keys that are pairs of integers compared
 lexicographically, such as `(0 if required else 1, index)` or
 `(line, column)`. Python's sort is stable: elements with equal keys keep
 their relative order.
 */
module StableSort {

  datatype Rank = Rank(major: int, minor: int)

  predicate RankLess(a: Rank, b: Rank)
  {
    a.major < b.major || (a.major == b.major && a.minor < b.minor)
  }

  predicate SortedBy<T>(s: seq<T>, key: T -> Rank)
  {
    forall i, j :: 0 <= i < j < |s| ==> !RankLess(key(s[j]), key(s[i]))
  }

  /** The elements whose key is `q`, in their order in `s`. */
  function WithRank<T>(s: seq<T>, key: T -> Rank, q: Rank): seq<T>
  {
    if s == [] then []
    else (if key(s[0]) == q then [s[0]] else []) + WithRank(s[1..], key, q)
  }

  lemma {:induction false} WithRankAppend<T>(a: seq<T>, b: seq<T>, key: T -> Rank, q: Rank)
    ensures WithRank(a + b, key, q) == WithRank(a, key, q) + WithRank(b, key, q)
  {
    if a != [] {
      assert a + b == [a[0]] + (a[1..] + b);
      WithRankCons(a[0], a[1..] + b, key, q);
      WithRankCons(a[0], a[1..], key, q);
      assert a == [a[0]] + a[1..];
      WithRankAppend(a[1..], b, key, q);
    } else {
      assert a + b == b;
    }
  }

  lemma WithRankCons<T>(x: T, s: seq<T>, key: T -> Rank, q: Rank)
    ensures WithRank([x] + s, key, q) == (if key(x) == q then [x] else []) + WithRank(s, key, q)
  {
    assert ([x] + s)[1..] == s;
  }

  function InsertBy<T(==)>(x: T, s: seq<T>, key: T -> Rank): (r: seq<T>)
    requires SortedBy(s, key)
    ensures multiset(r) == multiset(s) + multiset{x}
    ensures SortedBy(r, key)
  {
    if s == [] then
      [x]
    else if !RankLess(key(s[0]), key(x)) then
      InsertFront(x, s, key);
      [x] + s
    else
      var rest := InsertBy(x, s[1..], key);
      RestAbove(x, s, rest, key);
      ConsSorted(s[0], rest, key);
      assert s == [s[0]] + s[1..];
      [s[0]] + rest
  }

  /** Inserting `x` puts it among the elements of its rank without reordering the others. */
  lemma {:induction false} InsertByRanks<T>(x: T, s: seq<T>, key: T -> Rank)
    requires SortedBy(s, key)
    ensures forall q :: WithRank(InsertBy(x, s, key), key, q) == (if key(x) == q then [x] else []) + WithRank(s, key, q)
  {
    if s == [] || !RankLess(key(s[0]), key(x)) {
      forall q ensures WithRank([x] + s, key, q) == (if key(x) == q then [x] else []) + WithRank(s, key, q) {
        WithRankCons(x, s, key, q);
      }
      assert s == [] ==> [x] + s == [x];
    } else {
      InsertByRanks(x, s[1..], key);
      InsertBehindRanks(x, s, InsertBy(x, s[1..], key), key);
    }
  }

  lemma InsertFront<T>(x: T, s: seq<T>, key: T -> Rank)
    requires SortedBy(s, key)
    requires s != [] ==> !RankLess(key(s[0]), key(x))
    ensures SortedBy([x] + s, key)
  {
    ConsSorted(x, s, key);
  }

  lemma InsertBehindRanks<T>(x: T, s: seq<T>, rest: seq<T>, key: T -> Rank)
    requires s != [] && key(s[0]) != key(x)
    requires forall q :: WithRank(rest, key, q) == (if key(x) == q then [x] else []) + WithRank(s[1..], key, q)
    ensures forall q :: WithRank([s[0]] + rest, key, q) == (if key(x) == q then [x] else []) + WithRank(s, key, q)
  {
    forall q ensures WithRank([s[0]] + rest, key, q) == (if key(x) == q then [x] else []) + WithRank(s, key, q) {
      InsertBehindRank(x, s, rest, key, q);
    }
  }

  lemma InsertBehindRank<T>(x: T, s: seq<T>, rest: seq<T>, key: T -> Rank, q: Rank)
    requires s != [] && key(s[0]) != key(x)
    requires WithRank(rest, key, q) == (if key(x) == q then [x] else []) + WithRank(s[1..], key, q)
    ensures WithRank([s[0]] + rest, key, q) == (if key(x) == q then [x] else []) + WithRank(s, key, q)
  {
    var px: seq<T> := if key(x) == q then [x] else [];
    var ph: seq<T> := if key(s[0]) == q then [s[0]] else [];
    var tail := WithRank(s[1..], key, q);
    WithRankCons(s[0], rest, key, q);
    assert WithRank([s[0]] + rest, key, q) == ph + (px + tail);
    WithRankCons(s[0], s[1..], key, q);
    assert s == [s[0]] + s[1..];
    assert WithRank(s, key, q) == ph + tail;
    assert ph == [] || px == [];
    assert ph + (px + tail) == px + (ph + tail);
  }

  /** What `rest` holds — the tail of `s` and `x` — ranks no lower than the head of `s`. */
  lemma RestAbove<T>(x: T, s: seq<T>, rest: seq<T>, key: T -> Rank)
    requires SortedBy(s, key) && s != [] && RankLess(key(s[0]), key(x))
    requires multiset(rest) == multiset(s[1..]) + multiset{x}
    ensures forall j :: 0 <= j < |rest| ==> !RankLess(key(rest[j]), key(s[0]))
  {
    forall j | 0 <= j < |rest| ensures !RankLess(key(rest[j]), key(s[0])) {
      assert rest[j] in multiset(rest);
      if rest[j] != x {
        assert rest[j] in multiset(s[1..]);
        var k :| 0 <= k < |s[1..]| && s[1..][k] == rest[j];
        assert !RankLess(key(s[k + 1]), key(s[0]));
      }
    }
  }

  lemma ConsSorted<T>(y: T, rest: seq<T>, key: T -> Rank)
    requires SortedBy(rest, key)
    requires forall j :: 0 <= j < |rest| ==> !RankLess(key(rest[j]), key(y))
    ensures SortedBy([y] + rest, key)
  {
    var r := [y] + rest;
    forall i, j | 0 <= i < j < |r| ensures !RankLess(key(r[j]), key(r[i])) {
      assert r[j] == rest[j - 1];
      if i > 0 {
        assert r[i] == rest[i - 1];
      }
    }
  }

  /** `sorted(s, key=key)`. */
  function SortBy<T(==)>(s: seq<T>, key: T -> Rank): (r: seq<T>)
    ensures multiset(r) == multiset(s)
    ensures SortedBy(r, key)
    ensures forall q :: WithRank(r, key, q) == WithRank(s, key, q)
  {
    if s == [] then []
    else
      var rest := SortBy(s[1..], key);
      assert s == [s[0]] + s[1..];
      forall q ensures WithRank(s, key, q) == (if key(s[0]) == q then [s[0]] else []) + WithRank(s[1..], key, q) {
        WithRankCons(s[0], s[1..], key, q);
      }
      InsertByRanks(s[0], rest, key);
      InsertBy(s[0], rest, key)
  }

  /** Sorting what is already sorted changes nothing. */
  lemma {:induction false} SortBySorted<T>(s: seq<T>, key: T -> Rank)
    requires SortedBy(s, key)
    ensures SortBy(s, key) == s
  {
    if s != [] {
      SortBySorted(s[1..], key);
      assert s == [s[0]] + s[1..];
    }
  }

  /** Sorting is idempotent. */
  lemma SortByIdempotent<T>(s: seq<T>, key: T -> Rank)
    ensures SortBy(SortBy(s, key), key) == SortBy(s, key)
  {
    SortBySorted(SortBy(s, key), key);
  }
}
