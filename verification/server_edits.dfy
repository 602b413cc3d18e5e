/**
 The "remove child" code action of `server.py`: `_build_child_remove_edit`
 takes a child out of its parent's `children` and, when nothing else lists
 it any more, removes its entry together with the descendants that
 `_collect_orphaned_elements` finds orphaned.

 As in the cascade operations, the document is the value `yaml.safe_load`
 built; the result is the value that would be dumped, or `None` where the
 source returns no edit. Whether the dumped text differs from the source
 text is `_full_document_edit`'s concern (see `ServerText`).
 */
module ServerEdits {
  import opened Wrappers
  import opened Dicts
  import opened Yaml
  import opened CascadeKit
  import opened CascadeCollapse

  // ---------------------------------------------------------------------
  // `_collect_orphaned_elements`.
  // ---------------------------------------------------------------------

  lemma CardRemoveOne(ks: set<string>, rm: set<string>, c: string)
    requires c in ks && c !in rm
    ensures |ks - (rm + {c})| == |ks - rm| - 1
  {
    assert ks - rm == (ks - (rm + {c})) + {c};
  }

  /** Whether the walk adds `child` of `current`: not yet collected, an element entry, and listed by no entry outside the set other than `current`. */
  predicate Joins(els: Dict<Value>, rm: set<string>, current: string, child: string)
  {
    child !in rm && Unreferenced(els, rm + {current}, child) && child in Keys(els)
  }

  /**
   The `for child in children` loop over the children `ks` of `current`
   from position `j`: a joining child is added to the set and pushed on
   the stack. The result is the grown set and stack.
   */
  function VisitFrom(els: Dict<Value>, current: string, ks: seq<string>, j: nat, rm: set<string>, queue: seq<string>)
    : (r: (set<string>, seq<string>))
    requires j <= |ks|
    ensures rm <= r.0
    ensures 2 * |KeySet(els) - r.0| + |r.1| <= 2 * |KeySet(els) - rm| + |queue|
    decreases |ks| - j
  {
    if j == |ks| then (rm, queue)
    else if Joins(els, rm, current, ks[j]) then
      CardRemoveOne(KeySet(els), rm, ks[j]);
      VisitFrom(els, current, ks, j + 1, rm + {ks[j]}, queue + [ks[j]])
    else
      VisitFrom(els, current, ks, j + 1, rm, queue)
  }

  /** The `while queue` loop: pop the last name and visit its children, until the stack is empty. */
  function StackWalk(els: Dict<Value>, rm: set<string>, queue: seq<string>): (r: set<string>)
    ensures rm <= r
    decreases 2 * |KeySet(els) - rm| + |queue|
  {
    if queue == [] then rm
    else
      var current := queue[|queue| - 1];
      var next := VisitFrom(els, current, ChildrenOf(els, current), 0, rm, queue[..|queue| - 1]);
      StackWalk(els, next.0, next.1)
  }

  // Soundness: every collected name other than the start is an orphan.

  /** The invariant of the walk: `elem`, and element entries no entry outside `rm` lists. */
  predicate Orphans(els: Dict<Value>, elem: string, rm: set<string>)
  {
    elem in rm && forall x :: x in rm && x != elem ==> x in Keys(els) && Unreferenced(els, rm, x)
  }

  predicate AllIn(queue: seq<string>, rm: set<string>)
  {
    forall q :: q in queue ==> q in rm
  }

  /** Adding an orphaned child of a member keeps the invariant. */
  lemma AddOrphan(els: Dict<Value>, elem: string, rm: set<string>, current: string, child: string)
    requires Orphans(els, elem, rm) && current in rm
    requires Unreferenced(els, rm + {current}, child) && child in Keys(els)
    ensures Orphans(els, elem, rm + {child})
  {
    assert rm + {current} == rm;
    forall x | x in rm + {child} && x != elem
      ensures x in Keys(els) && Unreferenced(els, rm + {child}, x)
    {
      if x != child {
        assert Unreferenced(els, rm, x);
      }
    }
  }

  lemma {:induction false} VisitFromOrphans(els: Dict<Value>, elem: string, current: string, ks: seq<string>, j: nat, rm: set<string>, queue: seq<string>)
    requires j <= |ks| && current in rm && Orphans(els, elem, rm) && AllIn(queue, rm)
    ensures var r := VisitFrom(els, current, ks, j, rm, queue);
      Orphans(els, elem, r.0) && AllIn(r.1, r.0)
    decreases |ks| - j
  {
    if j < |ks| {
      if Joins(els, rm, current, ks[j]) {
        AddOrphan(els, elem, rm, current, ks[j]);
        VisitFromOrphans(els, elem, current, ks, j + 1, rm + {ks[j]}, queue + [ks[j]]);
      } else {
        VisitFromOrphans(els, elem, current, ks, j + 1, rm, queue);
      }
    }
  }

  lemma {:induction false} StackWalkOrphans(els: Dict<Value>, elem: string, rm: set<string>, queue: seq<string>)
    requires Orphans(els, elem, rm) && AllIn(queue, rm)
    ensures Orphans(els, elem, StackWalk(els, rm, queue))
    decreases 2 * |KeySet(els) - rm| + |queue|
  {
    if queue != [] {
      var current := queue[|queue| - 1];
      var next := VisitFrom(els, current, ChildrenOf(els, current), 0, rm, queue[..|queue| - 1]);
      VisitFromOrphans(els, elem, current, ChildrenOf(els, current), 0, rm, queue[..|queue| - 1]);
      StackWalkOrphans(els, elem, next.0, next.1);
    }
  }

  // Every collected name descends from the start.

  /** Every member of `rm` descends from `elem`. */
  ghost predicate AllBelow(els: Dict<Value>, elem: string, rm: set<string>)
  {
    forall x :: x in rm ==> Descends(els, elem, x)
  }

  /** ... and every member still descends from `elem`. */
  lemma AddBelow(els: Dict<Value>, elem: string, rm: set<string>, current: string, child: string)
    requires AllBelow(els, elem, rm)
    requires current in rm && child in ChildrenOf(els, current)
    ensures AllBelow(els, elem, rm + {child})
  {
    DescendsChild(els, current, child);
    DescendsTrans(els, elem, current, child);
  }

  lemma {:induction false} VisitFromBelow(els: Dict<Value>, elem: string, current: string, ks: seq<string>, j: nat, rm: set<string>, queue: seq<string>)
    requires ks == ChildrenOf(els, current)
    requires j <= |ks| && current in rm && AllBelow(els, elem, rm)
    ensures AllBelow(els, elem, VisitFrom(els, current, ks, j, rm, queue).0)
    decreases |ks| - j
  {
    if j < |ks| {
      if Joins(els, rm, current, ks[j]) {
        AddBelow(els, elem, rm, current, ks[j]);
        VisitFromBelow(els, elem, current, ks, j + 1, rm + {ks[j]}, queue + [ks[j]]);
      } else {
        VisitFromBelow(els, elem, current, ks, j + 1, rm, queue);
      }
    }
  }

  lemma {:induction false} StackWalkBelow(els: Dict<Value>, elem: string, rm: set<string>, queue: seq<string>)
    requires AllBelow(els, elem, rm) && AllIn(queue, rm)
    ensures AllBelow(els, elem, StackWalk(els, rm, queue))
    decreases 2 * |KeySet(els) - rm| + |queue|
  {
    if queue != [] {
      var current := queue[|queue| - 1];
      var next := VisitFrom(els, current, ChildrenOf(els, current), 0, rm, queue[..|queue| - 1]);
      VisitFromBelow(els, elem, current, ChildrenOf(els, current), 0, rm, queue[..|queue| - 1]);
      VisitFromAllIn(els, current, ChildrenOf(els, current), 0, rm, queue[..|queue| - 1]);
      StackWalkBelow(els, elem, next.0, next.1);
    }
  }

  // Completeness: nothing still orphaned is left behind.

  /** Every collected name has been visited (`done`) or waits on the stack. */
  ghost predicate Accounted(rm: set<string>, done: set<string>, queue: seq<string>)
  {
    done <= rm && forall x :: x in rm ==> x in done || x in queue
  }

  /** Every name in `ks` is kept against `rm` and `out`. */
  ghost predicate AllKept2(els: Dict<Value>, ks: seq<string>, rm: set<string>, out: set<string>)
  {
    forall j :: 0 <= j < |ks| ==> Kept(els, rm, out, false, ks[j])
  }

  /** A checked child that does not join is kept against `done + {current}`. */
  lemma KeptUnadded(els: Dict<Value>, done: set<string>, rm: set<string>, current: string, child: string)
    requires done + {current} <= rm && !Joins(els, rm, current, child)
    ensures Kept(els, rm, done + {current}, false, child)
  {
    if child !in rm && child in Keys(els) {
      var y :| y in Listers(els, child) && y !in rm + {current};
    }
  }

  /** One more name of `ks` checked, possibly with a larger removal set. */
  lemma AllKeptNext(els: Dict<Value>, ks: seq<string>, j: nat, rm: set<string>, rm1: set<string>, out: set<string>)
    requires j < |ks| && rm <= rm1
    requires AllKept2(els, ks[..j], rm, out) && Kept(els, rm1, out, false, ks[j])
    ensures AllKept2(els, ks[..j + 1], rm1, out)
  {
    forall i | 0 <= i < j + 1 ensures Kept(els, rm1, out, false, ks[i]) {
      if i < j {
        assert ks[..j][i] == ks[i];
        assert Kept(els, rm, out, false, ks[i]);
      }
    }
  }

  /** The checked prefix is empty at the start of the loop and the whole list at its end. */
  lemma AllKeptEnds(els: Dict<Value>, ks: seq<string>, rm: set<string>, out: set<string>)
    ensures AllKept2(els, ks[..0], rm, out)
    ensures AllKept2(els, ks[..|ks|], rm, out) ==> AllKept2(els, ks, rm, out)
  {
    assert ks[..|ks|] == ks;
  }

  /** Growing the removal set keeps every settled name settled. */
  lemma SettledMore(els: Dict<Value>, done: set<string>, rm: set<string>, child: string)
    requires Settled(els, done, rm, done, false)
    ensures Settled(els, done, rm + {child}, done, false)
  {
    forall p, c | p in done && c in ChildrenOf(els, p) ensures Kept(els, rm + {child}, done, false, c) {
      assert Kept(els, rm, done, false, c);
    }
  }

  lemma {:induction false} VisitFromKept(els: Dict<Value>, done: set<string>, current: string, ks: seq<string>, j: nat, rm: set<string>, queue: seq<string>)
    requires j <= |ks| && Accounted(rm, done + {current}, queue)
    requires Settled(els, done, rm, done, false) && AllKept2(els, ks[..j], rm, done + {current})
    ensures var r := VisitFrom(els, current, ks, j, rm, queue);
      && Accounted(r.0, done + {current}, r.1)
      && Settled(els, done, r.0, done, false)
      && AllKept2(els, ks, r.0, done + {current})
    decreases |ks| - j
  {
    if j == |ks| {
      AllKeptEnds(els, ks, rm, done + {current});
    } else if Joins(els, rm, current, ks[j]) {
      var rm1 := rm + {ks[j]};
      SettledMore(els, done, rm, ks[j]);
      AllKeptNext(els, ks, j, rm, rm1, done + {current});
      VisitFromKept(els, done, current, ks, j + 1, rm1, queue + [ks[j]]);
    } else {
      KeptUnadded(els, done, rm, current, ks[j]);
      AllKeptNext(els, ks, j, rm, rm, done + {current});
      VisitFromKept(els, done, current, ks, j + 1, rm, queue);
    }
  }

  /**
   Once `current` has had all its children checked against
   `done + {current}`, the names settled against `done` are settled
   against `done + {current}` too.
   */
  lemma SettleCurrent(els: Dict<Value>, done: set<string>, rm: set<string>, current: string)
    requires DistinctKeys(els)
    requires Settled(els, done, rm, done, false)
    requires AllKept2(els, ChildrenOf(els, current), rm, done + {current})
    ensures Settled(els, done + {current}, rm, done + {current}, false)
  {
    var d1 := done + {current};
    forall p, c | p in d1 && c in ChildrenOf(els, p) ensures Kept(els, rm, d1, false, c) {
      if p == current {
        AllKeptHas(els, ChildrenOf(els, current), rm, d1, c);
      } else {
        KeptPastCurrent(els, done, rm, current, c);
      }
    }
  }

  lemma AllKeptHas(els: Dict<Value>, ks: seq<string>, rm: set<string>, out: set<string>, c: string)
    requires AllKept2(els, ks, rm, out) && c in ks
    ensures Kept(els, rm, out, false, c)
  {
    var j :| 0 <= j < |ks| && ks[j] == c;
  }

  /** A name kept against `done` is kept against `done + {current}` once `current`'s children are. */
  lemma KeptPastCurrent(els: Dict<Value>, done: set<string>, rm: set<string>, current: string, c: string)
    requires DistinctKeys(els) && Kept(els, rm, done, false, c)
    requires AllKept2(els, ChildrenOf(els, current), rm, done + {current})
    ensures Kept(els, rm, done + {current}, false, c)
  {
    if c !in rm && c in Keys(els) {
      var y :| y in Listers(els, c) && y !in done;
      if y == current {
        ListerLists(els, c, y);
        AllKeptHas(els, ChildrenOf(els, current), rm, done + {current}, c);
      }
    }
  }

  /** Popping the last name of the stack moves it from the stack to `done`. */
  lemma PopAccounted(rm: set<string>, done: set<string>, queue: seq<string>)
    requires queue != [] && Accounted(rm, done, queue) && queue[|queue| - 1] in rm
    ensures Accounted(rm, done + {queue[|queue| - 1]}, queue[..|queue| - 1])
  {
    forall x | x in rm ensures x in done + {queue[|queue| - 1]} || x in queue[..|queue| - 1] {
      if x in queue && x != queue[|queue| - 1] {
        var i :| 0 <= i < |queue| && queue[i] == x;
        assert queue[..|queue| - 1][i] == x;
      }
    }
  }

  /** The stack stays within the set through the visit. */
  lemma {:induction false} VisitFromAllIn(els: Dict<Value>, current: string, ks: seq<string>, j: nat, rm: set<string>, queue: seq<string>)
    requires j <= |ks| && AllIn(queue, rm)
    ensures var r := VisitFrom(els, current, ks, j, rm, queue);
      AllIn(r.1, r.0)
    decreases |ks| - j
  {
    if j < |ks| {
      if Joins(els, rm, current, ks[j]) {
        VisitFromAllIn(els, current, ks, j + 1, rm + {ks[j]}, queue + [ks[j]]);
      } else {
        VisitFromAllIn(els, current, ks, j + 1, rm, queue);
      }
    }
  }

  /** One pass of the `while queue` loop keeps the completeness invariant, with the popped name now done. */
  lemma PopStep(els: Dict<Value>, done: set<string>, rm: set<string>, queue: seq<string>)
    requires DistinctKeys(els) && queue != [] && AllIn(queue, rm) && Accounted(rm, done, queue)
    requires Settled(els, done, rm, done, false)
    ensures var current := queue[|queue| - 1];
      var next := VisitFrom(els, current, ChildrenOf(els, current), 0, rm, queue[..|queue| - 1]);
      && AllIn(next.1, next.0) && Accounted(next.0, done + {current}, next.1)
      && Settled(els, done + {current}, next.0, done + {current}, false)
  {
    var current := queue[|queue| - 1];
    var ks := ChildrenOf(els, current);
    var q := queue[..|queue| - 1];
    var next := VisitFrom(els, current, ks, 0, rm, q);
    PopAccounted(rm, done, queue);
    AllKeptEnds(els, ks, rm, done + {current});
    VisitFromKept(els, done, current, ks, 0, rm, q);
    SettleCurrent(els, done, next.0, current);
    assert AllIn(q, rm);
    VisitFromAllIn(els, current, ks, 0, rm, q);
  }

  lemma {:induction false} StackWalkComplete(els: Dict<Value>, done: set<string>, rm: set<string>, queue: seq<string>)
    requires DistinctKeys(els) && AllIn(queue, rm) && Accounted(rm, done, queue)
    requires Settled(els, done, rm, done, false)
    ensures Complete(els, StackWalk(els, rm, queue), false)
    decreases 2 * |KeySet(els) - rm| + |queue|
  {
    if queue == [] {
      assert rm == done;
    } else {
      var current := queue[|queue| - 1];
      var ks := ChildrenOf(els, current);
      var next := VisitFrom(els, current, ks, 0, rm, queue[..|queue| - 1]);
      PopStep(els, done, rm, queue);
      StackWalkComplete(els, done + {current}, next.0, next.1);
    }
  }

  /**
   `_collect_orphaned_elements(elem_name, elements)`: a depth-first walk
   from `elem`, with a stack as the work list. A child of the current
   entry joins the set when it is an element entry and no entry outside
   the set, other than the current one, lists it.

   The result holds `elem`; every other member is an element entry that
   descends from `elem` and that no entry outside the result lists. In a
   dict with distinct keys the result is closed (see `Complete`): a child
   of a member is a member, has no element entry, or is listed by an entry
   outside the result.
   */
  function CollectOrphanedElements(elem: string, els: Dict<Value>): (rm: set<string>)
    ensures Orphans(els, elem, rm)
    ensures AllBelow(els, elem, rm)
    ensures DistinctKeys(els) ==> Complete(els, rm, false)
  {
    var rm := StackWalk(els, {elem}, [elem]);
    assert Orphans(els, elem, rm) by {
      StackWalkOrphans(els, elem, {elem}, [elem]);
    }
    assert AllBelow(els, elem, rm) by {
      DescendsRefl(els, elem);
      StackWalkBelow(els, elem, {elem}, [elem]);
    }
    assert DistinctKeys(els) ==> Complete(els, rm, false) by {
      if DistinctKeys(els) {
        StackWalkComplete(els, {}, {elem}, [elem]);
      }
    }
    rm
  }

  // ---------------------------------------------------------------------
  // `_build_child_remove_edit`.
  // ---------------------------------------------------------------------

  /** The guards of `_build_child_remove_edit`: `parent` is a mapping entry whose `children` mapping lists `child`. */
  predicate Removable(raw: Value, parent: string, child: string)
  {
    && ElementsOf(raw).Some?
    && Get(ElementsOf(raw).value, parent).Some?
    && Get(ElementsOf(raw).value, parent).value.Map?
    && child in ChildKeysOf(Get(ElementsOf(raw).value, parent).value)
  }

  /** Step 1: `child` deleted from the parent's `children`, and an emptied `children` deleted. */
  function ParentPruned(els: Dict<Value>, parent: string, child: string): (r: Dict<Value>)
    requires Get(els, parent).Some?
    ensures Keys(r) == Keys(els)
    ensures Get(r, parent) == Some(PruneChildren(Get(els, parent).value, k => k != child))
    ensures forall k :: k != parent ==> Get(r, k) == Get(els, k)
    ensures DistinctKeys(els) ==> DistinctKeys(r)
  {
    assert forall i :: 0 <= i < |els| ==> Keys(Put(els, parent, PruneChildren(Get(els, parent).value, k => k != child)))[i] == Keys(els)[i];
    Put(els, parent, PruneChildren(Get(els, parent).value, k => k != child))
  }

  /** Step 3's clean-up: every remaining `children` mapping loses the removed names. */
  function PruneRemoved(els: Dict<Value>, rm: set<string>): (r: Dict<Value>)
    ensures Keys(r) == Keys(els)
    ensures forall i :: 0 <= i < |els| ==> r[i].val == PruneChildren(els[i].val, k => k !in rm)
  {
    seq(|els|, i requires 0 <= i < |els| => Entry(els[i].key, PruneChildren(els[i].val, k => k !in rm)))
  }

  /** Step 3: the removed entries popped, and the rest cleaned up. */
  function RemoveOrphans(els: Dict<Value>, rm: set<string>): (r: Dict<Value>)
    ensures forall k :: k in Keys(r) <==> k in Keys(els) && k !in rm
    ensures forall k :: k in Keys(r) ==> Get(r, k) == Some(PruneChildren(Get(els, k).value, k => k !in rm))
  {
    var kept := Filter(els, k => k !in rm);
    FilterKeys(els, k => k !in rm);
    FilterGet(els, k => k !in rm);
    var r := PruneRemoved(kept, rm);
    forall k | k in Keys(r) ensures Get(r, k) == Some(PruneChildren(Get(els, k).value, k => k !in rm)) {
      IndexOfSameKeys(kept, r, k);
    }
    r
  }

  /** The names of `before` that `after` no longer has. */
  function Removed(before: Dict<Value>, after: Dict<Value>): (r: set<string>)
    ensures forall k :: k in r <==> k in Keys(before) && k !in Keys(after)
  {
    set k | k in Keys(before) && k !in Keys(after)
  }

  /** A `children` mapping that is absent or lists something. */
  predicate NoEmptyChildren(v: Value)
  {
    Field(v, "children").None? || (Field(v, "children").value.Map? && ChildKeysOf(v) != [])
  }

  /**
   `after` is `before` with the names of `gone` dropped from its `children`
   mapping: every other field and every surviving child entry is kept.
   */
  ghost predicate PrunedOf(before: Value, after: Value, gone: set<string>)
  {
    && (forall f :: f != "children" ==> Field(after, f) == Field(before, f))
    && (forall k :: k in Keys(ChildMapOf(after)) <==> k in Keys(ChildMapOf(before)) && k !in gone)
    && (forall k :: k !in gone ==> Get(ChildMapOf(after), k) == Get(ChildMapOf(before), k))
  }

  /** Every entry of `out` is its entry in `els1` with the names `out` lost dropped from `children`. */
  ghost predicate SurvivorsPruned(els1: Dict<Value>, out: Dict<Value>)
  {
    forall k :: k in Keys(out) ==>
      Get(els1, k).Some? && PrunedOf(Get(els1, k).value, Get(out, k).value, Removed(els1, out))
  }

  /** Step 1 leaves the parent without `child` and without an empty `children`. */
  lemma ParentStep(els: Dict<Value>, parent: string, child: string)
    requires Get(els, parent).Some? && child in ChildKeysOf(Get(els, parent).value)
    ensures var p1 := Get(ParentPruned(els, parent, child), parent).value;
      child !in ChildKeysOf(p1) && NoEmptyChildren(p1)
  {
    var v := Get(els, parent).value;
    var p1 := PruneChildren(v, k => k != child);
    assert Field(v, "children").Some? && Field(v, "children").value.Map?;
    if Field(p1, "children").Some? {
      var k :| k in Keys(ChildMapOf(v)) && k != child;
      assert k in Keys(ChildMapOf(p1));
    }
  }

  /** Step 3 keeps both facts about the parent, if it survives. */
  lemma ParentAfterOrphans(els1: Dict<Value>, parent: string, child: string, rm: set<string>)
    requires child in rm
    requires Get(els1, parent).Some?
    requires child !in ChildKeysOf(Get(els1, parent).value) && NoEmptyChildren(Get(els1, parent).value)
    ensures var out := RemoveOrphans(els1, rm);
      parent in Keys(out) ==> child !in ChildKeysOf(Get(out, parent).value) && NoEmptyChildren(Get(out, parent).value)
  {
    var out := RemoveOrphans(els1, rm);
    if parent in Keys(out) {
      var v := Get(els1, parent).value;
      var p := PruneChildren(v, k => k !in rm);
      assert Get(out, parent) == Some(p);
      if Field(v, "children").Some? {
        if Field(p, "children").Some? {
          var k :| k in Keys(ChildMapOf(v)) && k !in rm;
          assert k in Keys(ChildMapOf(p));
        }
      }
    }
  }

  /**
   What step 3 promises about `out`, the elements after it: `child` is
   gone; only entries of `els1` remain; every removed name descends from
   `child` and is listed by no survivor, before or after; and, in a dict
   with distinct keys, no orphan is left: a child of a removed name that
   keeps its entry is listed by a survivor.
   */
  ghost predicate OrphansRemoved(els1: Dict<Value>, child: string, out: Dict<Value>)
  {
    && child !in Keys(out)
    && (forall k :: k in Keys(out) ==> k in Keys(els1))
    && (forall x :: x in Removed(els1, out) ==> Descends(els1, child, x) && Unreferenced(els1, Removed(els1, out), x))
    && (forall k, x :: k in Keys(out) && x in Removed(els1, out) ==> x !in ChildKeysOf(Get(out, k).value))
    && (DistinctKeys(els1) ==> Complete(els1, Removed(els1, out), false))
  }

  /** Step 3 removes `child` and orphans only, and no survivor lists a removed name. */
  lemma OrphanStep(els1: Dict<Value>, child: string, rm: set<string>)
    requires Orphans(els1, child, rm) && AllBelow(els1, child, rm)
    requires Listers(els1, child) == {} && child in Keys(els1)
    requires DistinctKeys(els1) ==> Complete(els1, rm, false)
    ensures OrphansRemoved(els1, child, RemoveOrphans(els1, rm))
  {
    var out := RemoveOrphans(els1, rm);
    RemovedIsCollected(els1, child, rm);
    forall x | x in rm ensures Descends(els1, child, x) && Unreferenced(els1, rm, x) {
      if x != child {
        assert Unreferenced(els1, rm, x);
      }
    }
    forall k, x | k in Keys(out) && x in rm ensures x !in ChildKeysOf(Get(out, k).value) {
      assert Get(out, k) == Some(PruneChildren(Get(els1, k).value, k => k !in rm));
    }
    OrphansRemovedOf(els1, child, out, rm);
  }

  /** `OrphansRemoved`, with the removed names known. */
  lemma OrphansRemovedOf(els1: Dict<Value>, child: string, out: Dict<Value>, gone: set<string>)
    requires Removed(els1, out) == gone && child in gone
    requires forall k :: k in Keys(out) ==> k in Keys(els1)
    requires forall x :: x in gone ==> Descends(els1, child, x) && Unreferenced(els1, gone, x)
    requires forall k, x :: k in Keys(out) && x in gone ==> x !in ChildKeysOf(Get(out, k).value)
    requires DistinctKeys(els1) ==> Complete(els1, gone, false)
    ensures OrphansRemoved(els1, child, out)
  {
  }

  /** Step 3 removes exactly the collected names. */
  lemma RemovedIsCollected(els1: Dict<Value>, child: string, rm: set<string>)
    requires Orphans(els1, child, rm) && child in Keys(els1)
    ensures Removed(els1, RemoveOrphans(els1, rm)) == rm
  {
  }

  /** Each survivor of step 3 is its old entry with exactly the removed names dropped from `children`. */
  lemma OrphansPruned(els1: Dict<Value>, child: string, rm: set<string>)
    requires Orphans(els1, child, rm) && child in Keys(els1)
    ensures SurvivorsPruned(els1, RemoveOrphans(els1, rm))
  {
    var out := RemoveOrphans(els1, rm);
    RemovedIsCollected(els1, child, rm);
    forall k | k in Keys(out) ensures Get(els1, k).Some? && PrunedOf(Get(els1, k).value, Get(out, k).value, rm) {
      assert Get(out, k) == Some(PruneChildren(Get(els1, k).value, x => x !in rm));
    }
  }

  /** When nothing is removed, every entry is its own pruning. */
  lemma SurvivorsUnpruned(els: Dict<Value>)
    ensures SurvivorsPruned(els, els)
  {
    assert Removed(els, els) == {};
  }

  /**
   `_build_child_remove_edit(uri, source, parent_name, child_name)`:
   `None` unless `parent` is a mapping entry whose `children` mapping
   lists `child`. Otherwise `child` leaves the parent's `children` (which
   is deleted when emptied). If then no entry lists `child` and it has an
   entry, that entry and its orphaned descendants are removed and their
   names leave every remaining `children` mapping.
   */
  method BuildChildRemove(raw: Value, parent: string, child: string) returns (r: Option<Value>)
    ensures r.Some? <==> Removable(raw, parent, child)
    ensures r.Some? ==> ElementsOf(r.value).Some?
    ensures r.Some? ==> forall k :: k != "profile" ==> Field(r.value, k) == Field(raw, k)
    // the child is no longer the parent's child, and the parent keeps no empty `children`
    ensures r.Some? ==> var out := ElementsOf(r.value).value;
      parent in Keys(out) ==> child !in ChildKeysOf(Get(out, parent).value) && NoEmptyChildren(Get(out, parent).value)
    // a child still listed elsewhere keeps its definition, and nothing else changes
    ensures r.Some? ==> var els1 := ParentPruned(ElementsOf(raw).value, parent, child);
      Listers(els1, child) != {} ==> ElementsOf(r.value).value == els1
    // an orphaned child is removed with exactly the descendants left orphaned; every survivor forgets them
    ensures r.Some? ==> var els1 := ParentPruned(ElementsOf(raw).value, parent, child);
      Listers(els1, child) == {} && child in Keys(els1) ==> OrphansRemoved(els1, child, ElementsOf(r.value).value)
    // each survivor is its entry after step 1 with only the removed names dropped from `children`
    ensures r.Some? ==> SurvivorsPruned(ParentPruned(ElementsOf(raw).value, parent, child), ElementsOf(r.value).value)
    // the profile keeps every key other than `elements`
    ensures r.Some? ==> OnlyElementsDiffer(raw, r.value)
  {
    if !Removable(raw, parent, child) {
      return None;
    }
    var els := ElementsOf(raw).value;
    var els1 := ParentPruned(els, parent, child);
    ParentStep(els, parent, child);
    // `still_referenced`: some entry's `children` mapping lists `child`
    if Listers(els1, child) == {} && child in Keys(els1) {
      var rm := CollectOrphanedElements(child, els1);
      var out := RemoveOrphans(els1, rm);
      ParentAfterOrphans(els1, parent, child, rm);
      OrphanStep(els1, child, rm);
      OrphansPruned(els1, child, rm);
      r := Some(WithElements(raw, out));
    } else {
      SurvivorsUnpruned(els1);
      r := Some(WithElements(raw, els1));
    }
  }
}
