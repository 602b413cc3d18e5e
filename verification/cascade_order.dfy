/**
 The canonical order of a profile's element definitions
 (`compute_element_order` and `_apply_element_order` in
 `models/cascade.py`): Kahn's algorithm over the references between the
 profile's own elements, alphabetical among the elements that are ready,
 `akomaNtoso` first when nothing references it, and the elements left on
 cycles appended alphabetically.
 */
module CascadeOrder {
  import opened Wrappers
  import opened Strings
  import opened Dicts
  import opened Yaml

  const Root: string := "akomaNtoso"

  predicate Distinct(s: seq<string>)
  {
    forall i, j :: 0 <= i < j < |s| ==> s[i] != s[j]
  }

  // ---------------------------------------------------------------------
  // The in-profile reference graph.
  // ---------------------------------------------------------------------

  /**
   The profile elements an entry references, in iteration order: every
   key of its `children` mapping that names a profile element, and in
   place of the `choice` key every such key of the `choice` mapping.
   */
  function ChildRefs(edata: Value, nodes: set<string>): (r: seq<string>)
    ensures forall x :: x in r ==> x in nodes
  {
    match edata
    case Map(ed) =>
      var children: Option<Value> := Get(ed, "children");
      (match children
       case Some(Map(cd)) => RefsFrom(cd, 0, nodes)
       case _ => [])
    case _ => []
  }

  function RefsFrom(cd: Dict<Value>, from: nat, nodes: set<string>): (r: seq<string>)
    requires from <= |cd|
    ensures forall x :: x in r ==> x in nodes
    decreases |cd| - from
  {
    if from == |cd| then []
    else
      var here :=
        if cd[from].key == "choice" then
          var choice: Option<Value> := Get(cd, "choice");
          (match choice
           case Some(Map(ch)) => KeepIn(Keys(ch), nodes)
           case _ => [])
        else if cd[from].key in nodes then [cd[from].key]
        else [];
      here + RefsFrom(cd, from + 1, nodes)
  }

  /** `[k for k in ks if k in keep]`. */
  function KeepIn(ks: seq<string>, keep: set<string>): (r: seq<string>)
    ensures forall x :: x in r <==> x in ks && x in keep
  {
    if ks == [] then []
    else (if ks[0] in keep then [ks[0]] else []) + KeepIn(ks[1..], keep)
  }

  /**
   The profile's element names and, for each, `sorted(children_of[name])`
   — the order in which the loop releases its children.
   */
  datatype Graph = Graph(nodes: set<string>, kids: map<string, seq<string>>)

  predicate GraphOk(g: Graph)
  {
    g.kids.Keys == g.nodes &&
    forall p, c :: p in g.kids && c in g.kids[p] ==> c in g.nodes
  }

  function BuildGraph(d: Dict<Value>): (g: Graph)
    ensures GraphOk(g)
    ensures g.nodes == NodeSet(d)
    ensures forall p :: p in g.nodes ==> multiset(g.kids[p]) == multiset(ChildRefs(Get(d, p).value, g.nodes))
  {
    var nodes := NodeSet(d);
    Graph(nodes, map p | p in nodes :: SortedRefs(Get(d, p).value, nodes))
  }

  /** `sorted(children_of[name])`. */
  function SortedRefs(edata: Value, nodes: set<string>): (r: seq<string>)
    ensures multiset(r) == multiset(ChildRefs(edata, nodes))
    ensures forall x :: x in r ==> x in nodes
  {
    var refs := ChildRefs(edata, nodes);
    var r := Sort(refs);
    assert forall x :: x in r ==> x in multiset(refs);
    r
  }

  /**
   The number of references to `x` from the parents in `ps` that are not
   yet `done`. Over all parents it is `len(parents_of[x])`, the initial
   in-degree; during the loop it is what the in-degree has counted down to.
   */
  function InDegree(kids: map<string, seq<string>>, ps: seq<string>, done: set<string>, x: string): nat
    requires forall p :: p in ps ==> p in kids
  {
    if ps == [] then 0
    else (if ps[0] in done then 0 else multiset(kids[ps[0]])[x]) + InDegree(kids, ps[1..], done, x)
  }

  /** Placing a parent removes exactly its references from every count. */
  lemma {:induction false} InDegreeStep(kids: map<string, seq<string>>, ps: seq<string>, done: set<string>, c: string, x: string)
    requires forall p :: p in ps ==> p in kids
    requires Distinct(ps) && c in ps && c !in done
    ensures InDegree(kids, ps, done + {c}, x) == InDegree(kids, ps, done, x) - multiset(kids[c])[x]
  {
    if ps[0] == c {
      assert forall p :: p in ps[1..] ==> p != c by {
        forall p | p in ps[1..] ensures p != c {
          var k :| 0 <= k < |ps[1..]| && ps[1..][k] == p;
          assert ps[k + 1] == p;
        }
      }
      InDegreeSame(kids, ps[1..], done, c, x);
    } else {
      assert c in ps[1..] by {
        var k :| 0 <= k < |ps| && ps[k] == c;
        assert ps[1..][k - 1] == c;
      }
      assert Distinct(ps[1..]) by {
        forall i, j | 0 <= i < j < |ps[1..]| ensures ps[1..][i] != ps[1..][j] {
          assert ps[1..][i] == ps[i + 1] && ps[1..][j] == ps[j + 1];
        }
      }
      InDegreeStep(kids, ps[1..], done, c, x);
    }
  }

  lemma {:induction false} InDegreeSame(kids: map<string, seq<string>>, ps: seq<string>, done: set<string>, c: string, x: string)
    requires forall p :: p in ps ==> p in kids
    requires c !in ps
    ensures InDegree(kids, ps, done + {c}, x) == InDegree(kids, ps, done, x)
  {
    if ps != [] {
      InDegreeSame(kids, ps[1..], done, c, x);
    }
  }

  /** A count of zero means every parent still to be placed leaves `x` alone. */
  lemma {:induction false} InDegreeZero(kids: map<string, seq<string>>, ps: seq<string>, done: set<string>, x: string)
    requires forall p :: p in ps ==> p in kids
    ensures InDegree(kids, ps, done, x) == 0 <==> forall p :: p in ps && p !in done ==> x !in kids[p]
  {
    if ps != [] {
      InDegreeZero(kids, ps[1..], done, x);
      assert forall p :: p in ps <==> p == ps[0] || p in ps[1..];
    }
  }

  // ---------------------------------------------------------------------
  // The loop.
  // ---------------------------------------------------------------------

  /** `_insert_sorted`: before the first entry greater than `item`, else at the end. */
  function InsertSorted(lst: seq<string>, item: string): (r: seq<string>)
    ensures |r| == |lst| + 1
    ensures multiset(r) == multiset(lst) + multiset{item}
    ensures forall x :: x in r <==> x in lst || x == item
  {
    if lst == [] then [item]
    else if Less(item, lst[0]) then [item] + lst
    else
      assert lst == [lst[0]] + lst[1..];
      [lst[0]] + InsertSorted(lst[1..], item)
  }

  /** Inserting a new name into a strictly ascending list keeps it strictly ascending. */
  lemma {:induction false} InsertSortedSorted(lst: seq<string>, item: string)
    requires StrictlySorted(lst) && item !in lst
    ensures StrictlySorted(InsertSorted(lst, item))
  {
    var r := InsertSorted(lst, item);
    if lst == [] {
    } else if Less(item, lst[0]) {
      forall i, j | 0 <= i < j < |r| ensures Less(r[i], r[j]) {
        if i == 0 && j > 1 {
          LessTransitive(item, lst[0], lst[j - 1]);
        }
      }
    } else {
      var rest := InsertSorted(lst[1..], item);
      assert StrictlySorted(lst[1..]);
      InsertSortedSorted(lst[1..], item);
      LessTotal(item, lst[0]);
      forall x | x in lst[1..] ensures Less(lst[0], x) {
        var k :| 0 <= k < |lst[1..]| && lst[1..][k] == x;
        assert lst[k + 1] == x;
      }
      forall i, j | 0 <= i < j < |r| ensures Less(r[i], r[j]) {
        if i == 0 {
          assert r[j] == rest[j - 1] && rest[j - 1] in rest;
        } else {
          assert r[i] == rest[i - 1] && r[j] == rest[j - 1];
        }
      }
    }
  }

  /** Inserting a new name into a list without repeats keeps it without repeats. */
  lemma {:induction false} InsertSortedDistinct(lst: seq<string>, item: string)
    requires Distinct(lst) && item !in lst
    ensures Distinct(InsertSorted(lst, item))
  {
    if lst != [] && !Less(item, lst[0]) {
      assert Distinct(lst[1..]) by {
        forall i, j | 0 <= i < j < |lst[1..]| ensures lst[1..][i] != lst[1..][j] {
          assert lst[1..][i] == lst[i + 1] && lst[1..][j] == lst[j + 1];
        }
      }
      InsertSortedDistinct(lst[1..], item);
      assert lst[0] !in lst[1..] by {
        forall k | 0 <= k < |lst[1..]| ensures lst[1..][k] != lst[0] {
          assert lst[1..][k] == lst[k + 1];
        }
      }
      DistinctConcat([lst[0]], InsertSorted(lst[1..], item));
    } else if lst != [] {
      DistinctConcat([item], lst);
    }
  }

  /** The elements whose in-degree is still positive. */
  function Positive(deg: map<string, int>): set<string>
  {
    set x | x in deg && deg[x] > 0
  }

  /** Counting an element down to 0 removes it from the positive ones. */
  lemma PositiveReachesZero(deg: map<string, int>, c: string)
    requires c in deg && deg[c] == 1
    ensures |Positive(deg[c := 0])| + 1 == |Positive(deg)|
  {
    assert Positive(deg) == Positive(deg[c := 0]) + {c};
  }

  /** Counting down an element that stays positive, or was not, changes nothing. */
  lemma PositiveUnchanged(deg: map<string, int>, c: string, v: int)
    requires c in deg && (deg[c] > 0 <==> v > 0)
    ensures Positive(deg[c := v]) == Positive(deg)
  {
  }

  /**
   The inner loop: count down the in-degree of every child of the element
   just placed, and insert a child into `ready` when its count reaches 0.
   */
  function Release(cs: seq<string>, j: nat, deg: map<string, int>, ready: seq<string>): (r: (map<string, int>, seq<string>))
    requires j <= |cs|
    requires forall c :: c in cs ==> c in deg
    requires Distinct(ready)
    requires forall x :: x in ready ==> x in deg && deg[x] <= 0
    ensures r.0.Keys == deg.Keys
    ensures forall x :: x in deg ==> r.0[x] == deg[x] - multiset(cs[j..])[x]
    ensures Distinct(r.1)
    ensures StrictlySorted(ready) ==> StrictlySorted(r.1)
    decreases |cs| - j
  {
    if j == |cs| then (deg, ready)
    else
      var c := cs[j];
      assert cs[j..] == [c] + cs[j + 1..];
      var v := deg[c] - 1;
      var deg1 := deg[c := v];
      if v == 0 then
        InsertSortedDistinct(ready, c);
        assert StrictlySorted(ready) ==> StrictlySorted(InsertSorted(ready, c)) by {
          if StrictlySorted(ready) { InsertSortedSorted(ready, c); }
        }
        Release(cs, j + 1, deg1, InsertSorted(ready, c))
      else
        Release(cs, j + 1, deg1, ready)
  }

  /**
   What the inner loop adds to `ready`: exactly the children it counts
   down from positive to 0; and it moves as many elements into `ready`
   as it takes out of the positive ones, which is what makes the outer
   loop terminate.
   */
  lemma {:induction false} ReleaseReady(cs: seq<string>, j: nat, deg: map<string, int>, ready: seq<string>)
    requires j <= |cs|
    requires forall c :: c in cs ==> c in deg
    requires Distinct(ready)
    requires forall x :: x in ready ==> x in deg && deg[x] <= 0
    ensures var r := Release(cs, j, deg, ready);
      (forall x :: x in r.1 <==> x in ready || (x in deg && 0 < deg[x] && r.0[x] <= 0)) &&
      |r.1| + |Positive(r.0)| == |ready| + |Positive(deg)|
    decreases |cs| - j
  {
    if j < |cs| {
      var c := cs[j];
      var v := deg[c] - 1;
      var deg1 := deg[c := v];
      if v == 0 {
        var ready1 := InsertSorted(ready, c);
        InsertSortedDistinct(ready, c);
        ReleaseReady(cs, j + 1, deg1, ready1);
        var r := Release(cs, j + 1, deg1, ready1);
        assert Release(cs, j, deg, ready) == r;
        ReleaseStep(deg, c, v, ready, ready1, r);
      } else {
        ReleaseReady(cs, j + 1, deg1, ready);
        var r := Release(cs, j + 1, deg1, ready);
        assert Release(cs, j, deg, ready) == r;
        ReleaseStep(deg, c, v, ready, ready, r);
      }
    }
  }

  /**
   One step of the inner loop: what holds after counting `c` down to `v`
   (and queueing it when `v` is 0) holds before the step.
   */
  lemma ReleaseStep(deg: map<string, int>, c: string, v: int, ready: seq<string>, ready1: seq<string>, r: (map<string, int>, seq<string>))
    requires c in deg && v == deg[c] - 1
    requires forall x :: x in ready ==> x in deg && deg[x] <= 0
    requires v == 0 ==> (forall x :: x in ready1 <==> x in ready || x == c) && |ready1| == |ready| + 1
    requires v != 0 ==> ready1 == ready
    requires r.0.Keys == deg.Keys && forall x :: x in deg ==> r.0[x] <= deg[c := v][x]
    requires forall x :: x in r.1 <==> x in ready1 || (x in deg[c := v] && 0 < deg[c := v][x] && r.0[x] <= 0)
    requires |r.1| + |Positive(r.0)| == |ready1| + |Positive(deg[c := v])|
    ensures forall x :: x in r.1 <==> x in ready || (x in deg && 0 < deg[x] && r.0[x] <= 0)
    ensures |r.1| + |Positive(r.0)| == |ready| + |Positive(deg)|
  {
    if v == 0 {
      PositiveReachesZero(deg, c);
    } else {
      PositiveUnchanged(deg, c, v);
    }
  }

  /** The elements already placed, as a set. */
  function Placed(ordered: seq<string>): set<string>
  {
    set y | y in ordered
  }

  /** What the outer loop keeps. */
  predicate KahnInv(g: Graph, ps: seq<string>, ready: seq<string>, deg: map<string, int>, ordered: seq<string>)
  {
    Shape(g, ps, deg) && Counted(g, ps, deg, ordered) && Queued(g, ready, deg, ordered) && Covered(ready, deg, ordered)
  }

  /** `ps` lists every element once; `deg` has a count for every element. */
  predicate Shape(g: Graph, ps: seq<string>, deg: map<string, int>)
  {
    GraphOk(g) && deg.Keys == g.nodes &&
    Distinct(ps) && (forall p :: p in ps ==> p in g.nodes) && (forall p :: p in g.nodes ==> p in ps)
  }

  /** Every count is the number of references from the parents not yet placed. */
  predicate Counted(g: Graph, ps: seq<string>, deg: map<string, int>, ordered: seq<string>)
    requires forall p :: p in ps ==> p in g.kids
  {
    forall x :: x in deg ==> deg[x] == InDegree(g.kids, ps, Placed(ordered), x)
  }

  /** Ready and placed elements are counted down, without repeats, and apart. */
  predicate Queued(g: Graph, ready: seq<string>, deg: map<string, int>, ordered: seq<string>)
  {
    (forall x :: x in ready ==> x in g.nodes && x in deg && deg[x] <= 0) &&
    (forall x :: x in ordered ==> x in g.nodes && x in deg && deg[x] <= 0) &&
    Distinct(ordered) && Distinct(ready) && (forall x :: x in ready ==> x !in ordered)
  }

  /** An element counted down to 0 is ready or placed. */
  predicate Covered(ready: seq<string>, deg: map<string, int>, ordered: seq<string>)
  {
    forall x :: x in deg && deg[x] <= 0 ==> x in ready || x in ordered
  }

  /** Every parent of a placed element was placed before it. */
  predicate ParentsFirst(g: Graph, ordered: seq<string>)
  {
    forall i, p :: 0 <= i < |ordered| && p in g.kids && ordered[i] in g.kids[p] ==> p in ordered[..i]
  }

  /** The state after one round of the outer loop. */
  function Step(g: Graph, ready: seq<string>, deg: map<string, int>): (r: (map<string, int>, seq<string>))
    requires GraphOk(g) && deg.Keys == g.nodes && ready != [] && ready[0] in g.nodes
    requires Distinct(ready) && forall x :: x in ready ==> x in deg && deg[x] <= 0
  {
    assert Distinct(ready[1..]) by {
      forall i, j | 0 <= i < j < |ready[1..]| ensures ready[1..][i] != ready[1..][j] {
        assert ready[1..][i] == ready[i + 1] && ready[1..][j] == ready[j + 1];
      }
    }
    Release(g.kids[ready[0]], 0, deg, ready[1..])
  }

  /** One round of the outer loop keeps its invariant and shrinks the measure. */
  lemma KahnStep(g: Graph, ps: seq<string>, ready: seq<string>, deg: map<string, int>, ordered: seq<string>)
    requires KahnInv(g, ps, ready, deg, ordered) && ParentsFirst(g, ordered) && ready != []
    ensures var r := Step(g, ready, deg);
      KahnInv(g, ps, r.1, r.0, ordered + [ready[0]]) && ParentsFirst(g, ordered + [ready[0]]) &&
      |r.1| + |Positive(r.0)| < |ready| + |Positive(deg)|
  {
    var r := Step(g, ready, deg);
    CountsStep(g, ps, ready, deg, ordered);
    ParentsFirstStep(g, ps, ready, deg, ordered);
    ReadyStep(g, ps, ready, deg, ordered);
    CoverStep(g, ps, ready, deg, ordered);
    ReleaseReady(g.kids[ready[0]], 0, deg, ready[1..]);
  }

  /** After a round every count is again the references from the parents not yet placed. */
  lemma CountsStep(g: Graph, ps: seq<string>, ready: seq<string>, deg: map<string, int>, ordered: seq<string>)
    requires Shape(g, ps, deg) && Counted(g, ps, deg, ordered) && Queued(g, ready, deg, ordered) && ready != []
    ensures var deg' := Step(g, ready, deg).0;
      Shape(g, ps, deg') && Counted(g, ps, deg', ordered + [ready[0]])
  {
    var cur := ready[0];
    var done := Placed(ordered);
    var deg' := Step(g, ready, deg).0;
    assert g.kids[cur][0..] == g.kids[cur];
    assert Placed(ordered + [cur]) == done + {cur};
    forall x | x in deg' ensures deg'[x] == InDegree(g.kids, ps, Placed(ordered + [cur]), x) {
      InDegreeStep(g.kids, ps, done, cur, x);
    }
  }

  /** After a round the ready and placed elements keep their shape. */
  lemma ReadyStep(g: Graph, ps: seq<string>, ready: seq<string>, deg: map<string, int>, ordered: seq<string>)
    requires Shape(g, ps, deg) && Queued(g, ready, deg, ordered) && ready != []
    ensures var r := Step(g, ready, deg);
      Queued(g, r.1, r.0, ordered + [ready[0]])
  {
    var cur := ready[0];
    var r := Step(g, ready, deg);
    ReleaseReady(g.kids[cur], 0, deg, ready[1..]);
    var ready' := r.1;
    ReadyApart(ready, deg, ordered, ready');
    assert cur !in ordered;
    DistinctConcat(ordered, [cur]);
  }

  /** The elements a round makes ready are neither placed nor the one just placed. */
  lemma ReadyApart(ready: seq<string>, deg: map<string, int>, ordered: seq<string>, ready': seq<string>)
    requires ready != [] && Distinct(ready)
    requires forall x :: x in ordered ==> x in deg && deg[x] <= 0
    requires forall x :: x in ready ==> x !in ordered && x in deg && deg[x] <= 0
    requires forall x :: x in ready' ==> x in ready[1..] || (x in deg && 0 < deg[x])
    ensures forall x :: x in ready' ==> x !in ordered + [ready[0]]
  {
    forall x | x in ready' ensures x !in ordered + [ready[0]] {
      if x in ready[1..] {
        var k :| 0 <= k < |ready[1..]| && ready[1..][k] == x;
        assert ready[k + 1] == x;
      }
    }
  }

  /** An element whose count is down to 0 is ready or placed. */
  lemma CoverStep(g: Graph, ps: seq<string>, ready: seq<string>, deg: map<string, int>, ordered: seq<string>)
    requires Shape(g, ps, deg) && Queued(g, ready, deg, ordered) && Covered(ready, deg, ordered) && ready != []
    ensures var r := Step(g, ready, deg);
      Covered(r.1, r.0, ordered + [ready[0]])
  {
    var r := Step(g, ready, deg);
    ReleaseReady(g.kids[ready[0]], 0, deg, ready[1..]);
    forall x | x in r.0 && r.0[x] <= 0 ensures x in r.1 || x in ordered + [ready[0]] {
      if deg[x] <= 0 {
        assert x in ready || x in ordered;
        if x in ready && x != ready[0] {
          var k :| 0 <= k < |ready| && ready[k] == x;
          assert ready[1..][k - 1] == x;
        }
      }
    }
  }

  /** The element placed next has all its parents placed already. */
  lemma ParentsFirstStep(g: Graph, ps: seq<string>, ready: seq<string>, deg: map<string, int>, ordered: seq<string>)
    requires Shape(g, ps, deg) && Counted(g, ps, deg, ordered) && Queued(g, ready, deg, ordered) && ParentsFirst(g, ordered) && ready != []
    ensures ParentsFirst(g, ordered + [ready[0]])
  {
    var cur := ready[0];
    var ordered' := ordered + [cur];
    InDegreeZero(g.kids, ps, Placed(ordered), cur);
    assert ordered'[..|ordered|] == ordered;
    forall i, p | 0 <= i < |ordered'| && p in g.kids && ordered'[i] in g.kids[p] ensures p in ordered'[..i] {
      if i < |ordered| {
        assert ordered'[..i] == ordered[..i];
      } else {
        assert p in Placed(ordered);
      }
    }
  }

  /**
   `x` could be placed right after `prefix`: it is not placed yet and
   every element that references it is.
   */
  predicate ReadyAfter(g: Graph, ps: seq<string>, prefix: seq<string>, x: string)
    requires forall p :: p in ps ==> p in g.kids
  {
    x in g.nodes && x !in prefix && InDegree(g.kids, ps, Placed(prefix), x) == 0
  }

  /**
   The tie-break: from position `from` on, every placed element is the
   alphabetically least of the elements that could have been placed there.
   */
  ghost predicate LeastReady(g: Graph, ps: seq<string>, r: seq<string>, from: nat)
    requires forall p :: p in ps ==> p in g.kids
  {
    forall i, x :: from <= i < |r| && ReadyAfter(g, ps, r[..i], x) ==> x == r[i] || Less(r[i], x)
  }

  /** `ready` holds exactly the elements that could be placed next. */
  lemma ReadyIsQueued(g: Graph, ps: seq<string>, ready: seq<string>, deg: map<string, int>, ordered: seq<string>, x: string)
    requires KahnInv(g, ps, ready, deg, ordered)
    ensures ReadyAfter(g, ps, ordered, x) <==> x in ready
  {
  }

  /** A strictly ascending `ready` puts its least element first. */
  lemma HeadLeast(g: Graph, ps: seq<string>, ready: seq<string>, deg: map<string, int>, ordered: seq<string>, r: seq<string>)
    requires KahnInv(g, ps, ready, deg, ordered) && StrictlySorted(ready) && ready != []
    requires ordered <= r && |r| > |ordered| && r[|ordered|] == ready[0]
    requires LeastReady(g, ps, r, |ordered| + 1)
    ensures LeastReady(g, ps, r, |ordered|)
  {
    assert r[..|ordered|] == ordered;
    forall x | ReadyAfter(g, ps, r[..|ordered|], x) ensures x == ready[0] || Less(ready[0], x) {
      ReadyIsQueued(g, ps, ready, deg, ordered, x);
      var k :| 0 <= k < |ready| && ready[k] == x;
    }
  }

  lemma TailSorted(s: seq<string>)
    requires StrictlySorted(s) && s != []
    ensures StrictlySorted(s[1..])
  {
    forall i, j | 0 <= i < j < |s[1..]| ensures Less(s[1..][i], s[1..][j]) {
      assert s[1..][i] == s[i + 1] && s[1..][j] == s[j + 1];
    }
  }

  /** After a round `ready` is strictly ascending, whatever its head was. */
  lemma StepSorted(g: Graph, ps: seq<string>, ready: seq<string>, deg: map<string, int>, ordered: seq<string>)
    requires KahnInv(g, ps, ready, deg, ordered) && ready != [] && StrictlySorted(ready[1..])
    ensures var r := Step(g, ready, deg);
      StrictlySorted(r.1) && (r.1 != [] ==> StrictlySorted(r.1[1..]))
  {
    var r := Step(g, ready, deg);
    if r.1 != [] {
      TailSorted(r.1);
    }
  }

  /**
   `while ready: current = ready.pop(0); ...`. `ready` is ascending after
   its head (the head may be `akomaNtoso`, moved to the front), so every
   element placed after the first round is the least one that could be
   placed; when `ready` is wholly ascending, so is the first.
   */
  function KahnLoop(g: Graph, ps: seq<string>, ready: seq<string>, deg: map<string, int>, ordered: seq<string>): (r: seq<string>)
    requires KahnInv(g, ps, ready, deg, ordered) && ParentsFirst(g, ordered)
    requires ready != [] ==> StrictlySorted(ready[1..])
    ensures Distinct(r) && (forall x :: x in r ==> x in g.nodes)
    ensures ordered <= r
    ensures ready != [] ==> |r| > |ordered| && r[|ordered|] == ready[0]
    ensures ParentsFirst(g, r)
    ensures forall x :: x in g.nodes && x !in r ==> InDegree(g.kids, ps, Placed(r), x) > 0
    ensures LeastReady(g, ps, r, |ordered| + 1)
    ensures StrictlySorted(ready) ==> LeastReady(g, ps, r, |ordered|)
    decreases |ready| + |Positive(deg)|
  {
    if ready == [] then ordered
    else
      KahnStep(g, ps, ready, deg, ordered);
      var r := Step(g, ready, deg);
      StepSorted(g, ps, ready, deg, ordered);
      var k := KahnLoop(g, ps, r.1, r.0, ordered + [ready[0]]);
      assert StrictlySorted(ready) ==> LeastReady(g, ps, k, |ordered|) by {
        if StrictlySorted(ready) { HeadLeast(g, ps, ready, deg, ordered, k); }
      }
      k
  }

  // ---------------------------------------------------------------------
  // ---------------------------------------------------------------------
  // compute_element_order.
  // ---------------------------------------------------------------------

  lemma StrictlySortedDistinct(s: seq<string>)
    requires StrictlySorted(s)
    ensures Distinct(s)
  {
    forall i, j | 0 <= i < j < |s| ensures s[i] != s[j] {
      if s[i] == s[j] {
        LessIrreflexive(s[i]);
      }
    }
  }

  lemma DistinctConcat(a: seq<string>, b: seq<string>)
    requires Distinct(a) && Distinct(b)
    requires forall x :: x in a ==> x !in b
    ensures Distinct(a + b)
  {
    forall i, j | 0 <= i < j < |a + b| ensures (a + b)[i] != (a + b)[j] {
      if j < |a| {
        assert (a + b)[i] == a[i] && (a + b)[j] == a[j];
      } else if i >= |a| {
        assert (a + b)[i] == b[i - |a|] && (a + b)[j] == b[j - |a|];
      } else {
        assert (a + b)[i] == a[i] && (a + b)[j] == b[j - |a|];
        assert a[i] in a && b[j - |a|] in b;
      }
    }
  }

  /** The initial in-degrees: `len(parents_of[x])` for every element. */
  function InitialDegrees(g: Graph, ps: seq<string>): (deg: map<string, int>)
    requires forall p :: p in ps ==> p in g.kids
    ensures deg.Keys == g.nodes
    ensures forall x :: x in deg ==> deg[x] == InDegree(g.kids, ps, {}, x)
  {
    map x | x in g.nodes :: InDegree(g.kids, ps, {}, x)
  }

  /** `sorted` roots with `akomaNtoso` moved to the front. */
  function InitialReady(zero: set<string>): (r: seq<string>)
    ensures forall x :: x in r <==> x in zero
    ensures Distinct(r)
    ensures |r| > 0 ==> StrictlySorted(r[1..])
    ensures Root in zero ==> r[0] == Root
    ensures Root !in zero ==> StrictlySorted(r)
  {
    if Root in zero then
      var rest := SortSet(zero - {Root});
      StrictlySortedDistinct(rest);
      DistinctConcat([Root], rest);
      assert ([Root] + rest)[1..] == rest;
      [Root] + rest
    else
      var sorted := SortSet(zero);
      StrictlySortedDistinct(sorted);
      sorted
  }

  /** The Kahn part of the order: the elements not stuck on a cycle, parents first. */
  function KahnOrder(d: Dict<Value>): (k: seq<string>)
    ensures Distinct(k) && forall x :: x in k ==> x in Keys(d)
    ensures ParentsFirst(BuildGraph(d), k)
    ensures forall x :: x in Keys(d) && x !in k ==> InDegree(BuildGraph(d).kids, SortSet(NodeSet(d)), Placed(k), x) > 0
    ensures LeastReady(BuildGraph(d), SortSet(NodeSet(d)), k, 1)
    ensures ReadyAfter(BuildGraph(d), SortSet(NodeSet(d)), [], Root) ==> k != [] && k[0] == Root
    ensures !ReadyAfter(BuildGraph(d), SortSet(NodeSet(d)), [], Root) ==> LeastReady(BuildGraph(d), SortSet(NodeSet(d)), k, 0)
  {
    KahnFrom(BuildGraph(d))
  }

  /** Kahn's algorithm from its initial state: roots ready, nothing placed. */
  function KahnFrom(g: Graph): (k: seq<string>)
    requires GraphOk(g)
    ensures Distinct(k) && forall x :: x in k ==> x in g.nodes
    ensures ParentsFirst(g, k)
    ensures forall x :: x in g.nodes && x !in k ==> InDegree(g.kids, SortSet(g.nodes), Placed(k), x) > 0
    ensures LeastReady(g, SortSet(g.nodes), k, 1)
    ensures ReadyAfter(g, SortSet(g.nodes), [], Root) ==> k != [] && k[0] == Root
    ensures !ReadyAfter(g, SortSet(g.nodes), [], Root) ==> LeastReady(g, SortSet(g.nodes), k, 0)
  {
    var ps := SortSet(g.nodes);
    InitialInv(g, ps);
    RootReady(g, ps);
    KahnLoop(g, ps, InitialReady(Roots(g, InitialDegrees(g, ps))), InitialDegrees(g, ps), [])
  }

  /** `akomaNtoso` is among the initial roots exactly when it could be placed first. */
  lemma RootReady(g: Graph, ps: seq<string>)
    requires GraphOk(g) && ps == SortSet(g.nodes)
    ensures ReadyAfter(g, ps, [], Root) <==> Root in Roots(g, InitialDegrees(g, ps))
  {
    assert Placed([]) == {};
  }

  /** The elements nothing in the profile references. */
  function Roots(g: Graph, deg: map<string, int>): (r: set<string>)
    requires deg.Keys == g.nodes
    ensures forall x :: x in r <==> x in g.nodes && deg[x] == 0
  {
    set x | x in g.nodes && deg[x] == 0
  }

  /** The loop's invariant holds before the first round. */
  lemma InitialInv(g: Graph, ps: seq<string>)
    requires GraphOk(g) && ps == SortSet(g.nodes)
    ensures var deg := InitialDegrees(g, ps);
      KahnInv(g, ps, InitialReady(Roots(g, deg)), deg, []) && ParentsFirst(g, [])
  {
    StrictlySortedDistinct(ps);
    assert Placed([]) == {};
  }

  /** The elements of the profile as a set. */
  function NodeSet(d: Dict<Value>): (r: set<string>)
    ensures forall x :: x in r <==> x in Keys(d)
  {
    set x | x in Keys(d)
  }

  /** `compute_element_order`. */
  function ComputeElementOrder(d: Dict<Value>): (r: seq<string>)
    ensures Distinct(r)
    ensures forall x :: x in r <==> x in Keys(d)
    ensures r == KahnOrder(d) + SortSet(NodeSet(d) - Placed(KahnOrder(d)))
    ensures LeastReady(BuildGraph(d), SortSet(NodeSet(d)), r[..|KahnOrder(d)|], 1)
    ensures ReadyAfter(BuildGraph(d), SortSet(NodeSet(d)), [], Root) ==> r[0] == Root
  {
    var k := KahnOrder(d);
    var rest := SortSet(NodeSet(d) - Placed(k));
    StrictlySortedDistinct(rest);
    DistinctConcat(k, rest);
    assert (k + rest)[..|k|] == k;
    if d == [] then
      assert k == [];
      []
    else k + rest
  }

  /** The graph's child lists hold exactly the references of the entries. */
  lemma KidsAreReferences(d: Dict<Value>, p: string, x: string)
    requires p in Keys(d)
    ensures x in BuildGraph(d).kids[p] <==> x in ChildRefs(Get(d, p).value, NodeSet(d))
  {
    assert x in BuildGraph(d).kids[p] <==> x in multiset(BuildGraph(d).kids[p]);
  }

  /**
   A profile element referenced by another one that is placed in the
   Kahn part comes after that parent.
   */
  lemma ParentBeforeChild(d: Dict<Value>, i: nat, p: string)
    requires i < |KahnOrder(d)|
    requires p in Keys(d) && KahnOrder(d)[i] in ChildRefs(Get(d, p).value, NodeSet(d))
    ensures p in KahnOrder(d)[..i]
  {
    KidsAreReferences(d, p, KahnOrder(d)[i]);
  }

  /**
   An element all of whose referencing elements are placed in the Kahn
   part is placed there too: what is left for the alphabetical tail is
   referenced from the tail, so it sits on or below a cycle.
   */
  lemma ParentsPlacedThenPlaced(d: Dict<Value>, x: string)
    requires x in Keys(d)
    requires forall p :: p in Keys(d) && x in ChildRefs(Get(d, p).value, NodeSet(d)) ==> p in KahnOrder(d)
    ensures x in KahnOrder(d)
  {
    var g := BuildGraph(d);
    var ps := SortSet(NodeSet(d));
    var k := KahnOrder(d);
    forall p | p in ps && p !in Placed(k) ensures x !in g.kids[p] {
      KidsAreReferences(d, p, x);
    }
    InDegreeZero(g.kids, ps, Placed(k), x);
  }

  /** `akomaNtoso` comes first when no profile element references it. */
  lemma RootFirst(d: Dict<Value>)
    requires Root in Keys(d)
    requires forall p :: p in Keys(d) ==> Root !in ChildRefs(Get(d, p).value, NodeSet(d))
    ensures ComputeElementOrder(d)[0] == Root
  {
    var g := BuildGraph(d);
    var ps := SortSet(g.nodes);
    forall p | p in ps ensures Root !in g.kids[p] {
      assert Root !in multiset(g.kids[p]);
    }
    InDegreeZero(g.kids, ps, {}, Root);
    var deg := InitialDegrees(g, ps);
    assert deg[Root] == 0;
  }

  /** With no references between profile elements the order is alphabetical, `akomaNtoso` first. */
  lemma NoReferencesAlphabetical(d: Dict<Value>)
    requires forall p :: p in Keys(d) ==> ChildRefs(Get(d, p).value, NodeSet(d)) == []
    ensures ComputeElementOrder(d) == InitialReady(NodeSet(d))
  {
    KahnOrderNoReferences(d);
    NoLeftovers(d);
  }

  /** When the Kahn part places every element there is no alphabetical tail. */
  lemma NoLeftovers(d: Dict<Value>)
    requires forall x :: x in Keys(d) ==> x in KahnOrder(d)
    ensures ComputeElementOrder(d) == KahnOrder(d)
  {
    var k := KahnOrder(d);
    assert NodeSet(d) - Placed(k) == {} by {
      forall x | x in NodeSet(d) ensures x in Placed(k) {
      }
    }
    assert ComputeElementOrder(d) == k + [];
  }

  lemma KahnOrderNoReferences(d: Dict<Value>)
    requires forall p :: p in Keys(d) ==> ChildRefs(Get(d, p).value, NodeSet(d)) == []
    ensures KahnOrder(d) == InitialReady(NodeSet(d))
  {
    NoReferencesNoKids(d);
    KahnNoReferences(BuildGraph(d));
  }

  lemma KahnNoReferences(g: Graph)
    requires GraphOk(g)
    requires forall p :: p in g.kids ==> g.kids[p] == []
    ensures KahnFrom(g) == InitialReady(g.nodes)
  {
    var ps := SortSet(g.nodes);
    var deg := InitialDegrees(g, ps);
    NoReferencesNoDegrees(g, ps);
    InitialInv(g, ps);
    var ready := InitialReady(Roots(g, deg));
    KahnLoopNoReferences(g, ps, ready, deg, []);
    assert [] + ready == ready;
  }

  lemma NoReferencesNoKids(d: Dict<Value>)
    requires forall p :: p in Keys(d) ==> ChildRefs(Get(d, p).value, NodeSet(d)) == []
    ensures forall p :: p in BuildGraph(d).kids ==> BuildGraph(d).kids[p] == []
  {
    var g := BuildGraph(d);
    forall p | p in g.kids ensures g.kids[p] == [] {
      assert multiset(g.kids[p]) == multiset{};
    }
  }

  lemma NoReferencesNoDegrees(g: Graph, ps: seq<string>)
    requires forall p :: p in ps ==> p in g.kids && g.kids[p] == []
    ensures Roots(g, InitialDegrees(g, ps)) == g.nodes
  {
    forall x | x in g.nodes ensures InDegree(g.kids, ps, {}, x) == 0 {
      InDegreeZero(g.kids, ps, {}, x);
    }
  }

  lemma {:induction false} KahnLoopNoReferences(g: Graph, ps: seq<string>, ready: seq<string>, deg: map<string, int>, ordered: seq<string>)
    requires KahnInv(g, ps, ready, deg, ordered) && ParentsFirst(g, ordered)
    requires ready != [] ==> StrictlySorted(ready[1..])
    requires forall p :: p in g.kids ==> g.kids[p] == []
    ensures KahnLoop(g, ps, ready, deg, ordered) == ordered + ready
    decreases |ready|
  {
    if ready != [] {
      KahnStep(g, ps, ready, deg, ordered);
      assert Step(g, ready, deg) == (deg, ready[1..]);
      if ready[1..] != [] {
        TailSorted(ready[1..]);
      }
      KahnLoopNoReferences(g, ps, ready[1..], deg, ordered + [ready[0]]);
      PopAppend(ordered, ready);
    }
  }

  lemma PopAppend(ordered: seq<string>, ready: seq<string>)
    requires ready != []
    ensures ordered + [ready[0]] + ready[1..] == ordered + ready
  {
    assert ready == [ready[0]] + ready[1..];
  }

  /**
   The order depends on the profile's contents only: two element mappings
   with the same names bound to the same entries are ordered alike,
   whatever order they list them in.
   */
  lemma OrderIgnoresListing(d1: Dict<Value>, d2: Dict<Value>)
    requires forall k :: k in Keys(d1) <==> k in Keys(d2)
    requires forall k :: k in Keys(d1) ==> Get(d1, k) == Get(d2, k)
    ensures ComputeElementOrder(d1) == ComputeElementOrder(d2)
  {
    assert NodeSet(d1) == NodeSet(d2);
    assert BuildGraph(d1) == BuildGraph(d2);
    assert d1 != [] ==> d1[0].key in Keys(d1);
    assert d2 != [] ==> d2[0].key in Keys(d2);
  }

  /** `_apply_element_order`: the element mapping rebuilt in the computed order. */
  function ApplyElementOrder(d: Dict<Value>): (r: Dict<Value>)
    ensures Keys(r) == ComputeElementOrder(d)
    ensures DistinctKeys(r)
    ensures forall k :: Get(r, k) == Get(d, k)
  {
    var order := ComputeElementOrder(d);
    var r := Pick(d, order);
    forall k ensures Get(r, k) == Get(d, k) {
      if k in order {
        var i :| 0 <= i < |order| && order[i] == k;
        GetAt(r, i);
      }
    }
    r
  }

  /** `{name: d[name] for name in ks}`. */
  function Pick(d: Dict<Value>, ks: seq<string>): (r: Dict<Value>)
    requires forall k :: k in ks ==> k in Keys(d)
    ensures Keys(r) == ks
    ensures forall i :: 0 <= i < |r| ==> Get(d, ks[i]) == Some(r[i].val)
  {
    if ks == [] then []
    else [Entry(ks[0], Get(d, ks[0]).value)] + Pick(d, ks[1..])
  }

  /** Rebuilding two element mappings with the same entries gives the same mapping. */
  lemma ApplyOrderIgnoresListing(d1: Dict<Value>, d2: Dict<Value>)
    requires forall k :: Get(d1, k) == Get(d2, k)
    ensures ApplyElementOrder(d1) == ApplyElementOrder(d2)
  {
    assert forall k :: k in Keys(d1) <==> k in Keys(d2) by {
      forall k ensures k in Keys(d1) <==> k in Keys(d2) {
        assert Get(d1, k).Some? <==> Get(d2, k).Some?;
      }
    }
    OrderIgnoresListing(d1, d2);
    PickSame(d1, d2, ComputeElementOrder(d1));
  }

  lemma {:induction false} PickSame(d1: Dict<Value>, d2: Dict<Value>, ks: seq<string>)
    requires forall k :: k in ks ==> k in Keys(d1) && k in Keys(d2)
    requires forall k :: Get(d1, k) == Get(d2, k)
    ensures Pick(d1, ks) == Pick(d2, ks)
  {
    if ks != [] {
      PickSame(d1, d2, ks[1..]);
    }
  }

  /** Putting the elements in order twice is putting them in order once. */
  lemma ApplyElementOrderIdempotent(d: Dict<Value>)
    ensures ApplyElementOrder(ApplyElementOrder(d)) == ApplyElementOrder(d)
  {
    var r := ApplyElementOrder(d);
    OrderIgnoresListing(r, d);
  }
}
