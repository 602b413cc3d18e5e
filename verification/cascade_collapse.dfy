/**
 `collapse_element` (`models/cascade.py`): the element, and those of its
 descendants that no surviving element lists, leave `profile.elements`;
 the removed names leave every remaining `children` mapping, except a
 `choice` key; a `children` mapping left empty is deleted.
 */
module CascadeCollapse {
  import opened Wrappers
  import opened Dicts
  import opened Yaml
  import Schema
  import opened CascadeKit

  // ---------------------------------------------------------------------
  // Who lists whom.
  // ---------------------------------------------------------------------

  /** The names an element entry lists under `children`: none when the entry or its `children` is not a mapping. */
  function ChildKeysOf(v: Value): (r: seq<string>)
    ensures r == Keys(ChildMapOf(v))
  {
    Keys(ChildMapOf(v))
  }

  /** The names `elements.get(p)` lists as children. */
  function ChildrenOf(els: Dict<Value>, p: string): (r: seq<string>)
    ensures Get(els, p).None? ==> r == []
    ensures Get(els, p).Some? ==> r == ChildKeysOf(Get(els, p).value)
  {
    match Get(els, p)
    case None => []
    case Some(v) => ChildKeysOf(v)
  }

  /** The names of the entries that list `c` among their children. */
  function Listers(els: Dict<Value>, c: string): (r: set<string>)
    ensures forall i :: 0 <= i < |els| && c in ChildKeysOf(els[i].val) ==> els[i].key in r
  {
    set i | 0 <= i < |els| && c in ChildKeysOf(els[i].val) :: els[i].key
  }

  /**
   The orphan test of the walk: no entry whose name is outside `skip`
   lists `c` among its children.
   */
  predicate Unreferenced(els: Dict<Value>, skip: set<string>, c: string)
  {
    Listers(els, c) <= skip
  }

  /** Every child of a name in `vs` is in `vs`. */
  ghost predicate ChildClosed(els: Dict<Value>, vs: set<string>)
  {
    forall p, c :: p in vs && c in ChildrenOf(els, p) ==> c in vs
  }

  /** `x` is `root` or a descendant of it through `children` mappings. */
  ghost predicate Descends(els: Dict<Value>, root: string, x: string)
  {
    forall vs :: root in vs && ChildClosed(els, vs) ==> x in vs
  }

  lemma DescendsRefl(els: Dict<Value>, x: string)
    ensures Descends(els, x, x)
  {
  }

  lemma DescendsTrans(els: Dict<Value>, a: string, b: string, c: string)
    requires Descends(els, a, b) && Descends(els, b, c)
    ensures Descends(els, a, c)
  {
  }

  lemma DescendsChild(els: Dict<Value>, p: string, c: string)
    requires c in ChildrenOf(els, p)
    ensures Descends(els, p, c)
  {
  }

  // ---------------------------------------------------------------------
  // `_collect_descendants` and `_walk_orphans`.
  // ---------------------------------------------------------------------

  /** The names of the entries. */
  function KeySet(els: Dict<Value>): (r: set<string>)
    ensures forall k :: k in r <==> k in Keys(els)
  {
    set k | k in Keys(els)
  }

  /**
   `_walk_orphans(elem)`: the removal set after walking the children of
   `elem` when the entry is a mapping whose `children` is a mapping.
   */
  function WalkOrphans(els: Dict<Value>, elem: string, rm: set<string>): (r: set<string>)
    ensures rm <= r
    ensures forall x :: x in r && x !in rm ==> x in Keys(els)
    decreases |KeySet(els) - rm|, 1, 0
  {
    WalkChildren(els, ChildrenOf(els, elem), 0, rm)
  }

  /** Whether the walk adds child `c`: not yet removed, not `choice`, unreferenced outside `rm`, an element entry. */
  predicate Adds(els: Dict<Value>, rm: set<string>, c: string)
  {
    c !in rm && c != "choice" && Unreferenced(els, rm, c) && c in Keys(els)
  }

  /**
   The `for child_name in children` loop from position `i`: a child not
   yet removed, other than `choice`, that is a key of `elements` and that
   no element outside the removal set lists, is added and walked.
   */
  function WalkChildren(els: Dict<Value>, ks: seq<string>, i: nat, rm: set<string>): (r: set<string>)
    requires i <= |ks|
    ensures rm <= r
    ensures forall x :: x in r && x !in rm ==> x in Keys(els)
    decreases |KeySet(els) - rm|, 0, |ks| - i
  {
    if i == |ks| then rm
    else
      var c := ks[i];
      if !Adds(els, rm, c) then
        WalkChildren(els, ks, i + 1, rm)
      else
        assert KeySet(els) - rm == (KeySet(els) - (rm + {c})) + {c};
        var rm1 := WalkOrphans(els, c, rm + {c});
        Schema.SubsetCard(KeySet(els) - rm1, KeySet(els) - rm);
        WalkChildren(els, ks, i + 1, rm1)
  }

  /** Every name added since `rm` is listed by no entry outside the final set `r`. */
  ghost predicate Unlisted(els: Dict<Value>, rm: set<string>, r: set<string>)
  {
    forall x :: x in r && x !in rm ==> Unreferenced(els, r, x)
  }

  /** Every name added since `rm` descends from `root`. */
  ghost predicate Below(els: Dict<Value>, root: string, rm: set<string>, r: set<string>)
  {
    forall x :: x in r && x !in rm ==> Descends(els, root, x)
  }

  lemma UnlistedTrans(els: Dict<Value>, a: set<string>, b: set<string>, c: set<string>)
    requires a <= b <= c && Unlisted(els, a, b) && Unlisted(els, b, c)
    ensures Unlisted(els, a, c)
  {
  }

  lemma {:induction false} WalkOrphansUnlisted(els: Dict<Value>, elem: string, rm: set<string>)
    ensures Unlisted(els, rm, WalkOrphans(els, elem, rm))
    decreases |KeySet(els) - rm|, 1, 0
  {
    WalkChildrenUnlisted(els, ChildrenOf(els, elem), 0, rm);
  }

  lemma {:induction false} WalkChildrenUnlisted(els: Dict<Value>, ks: seq<string>, i: nat, rm: set<string>)
    requires i <= |ks|
    ensures Unlisted(els, rm, WalkChildren(els, ks, i, rm))
    decreases |KeySet(els) - rm|, 0, |ks| - i
  {
    if i < |ks| {
      if !Adds(els, rm, ks[i]) {
        WalkChildrenUnlisted(els, ks, i + 1, rm);
      } else {
        WalkChildUnlisted(els, ks, i, rm);
      }
    }
  }

  /** The step of `WalkChildrenUnlisted` for a child the walk adds. */
  lemma {:induction false} WalkChildUnlisted(els: Dict<Value>, ks: seq<string>, i: nat, rm: set<string>)
    requires i < |ks| && Adds(els, rm, ks[i])
    ensures Unlisted(els, rm, WalkChildren(els, ks, i, rm))
    decreases |KeySet(els) - rm|, 0, |ks| - i, 0
  {
    var c := ks[i];
    var rm1 := WalkOrphans(els, c, rm + {c});
    var r := WalkChildren(els, ks, i + 1, rm1);
    WalkStepShrinks(els, rm, c, rm1);
    WalkChildrenAdds(els, ks, i, rm);
    WalkOrphansUnlisted(els, c, rm + {c});
    WalkChildrenUnlisted(els, ks, i + 1, rm1);
    UnlistedTrans(els, rm, rm1, r);
  }

  lemma {:induction false} WalkOrphansBelow(els: Dict<Value>, elem: string, rm: set<string>)
    ensures Below(els, elem, rm, WalkOrphans(els, elem, rm))
    decreases |KeySet(els) - rm|, 1, 0
  {
    var ks := ChildrenOf(els, elem);
    forall j | 0 <= j < |ks| ensures Descends(els, elem, ks[j]) {
      DescendsChild(els, elem, ks[j]);
    }
    WalkChildrenBelow(els, ks, 0, rm, elem);
  }

  lemma {:induction false} WalkChildrenBelow(els: Dict<Value>, ks: seq<string>, i: nat, rm: set<string>, root: string)
    requires i <= |ks|
    requires forall j :: i <= j < |ks| ==> Descends(els, root, ks[j])
    ensures Below(els, root, rm, WalkChildren(els, ks, i, rm))
    decreases |KeySet(els) - rm|, 0, |ks| - i
  {
    if i < |ks| {
      if !Adds(els, rm, ks[i]) {
        WalkChildrenBelow(els, ks, i + 1, rm, root);
      } else {
        WalkChildBelow(els, ks, i, rm, root);
      }
    }
  }

  /** The step of `WalkChildrenBelow` for a child the walk adds. */
  lemma {:induction false} WalkChildBelow(els: Dict<Value>, ks: seq<string>, i: nat, rm: set<string>, root: string)
    requires i < |ks| && Adds(els, rm, ks[i])
    requires forall j :: i <= j < |ks| ==> Descends(els, root, ks[j])
    ensures Below(els, root, rm, WalkChildren(els, ks, i, rm))
    decreases |KeySet(els) - rm|, 0, |ks| - i, 0
  {
    var c := ks[i];
    var rm1 := WalkOrphans(els, c, rm + {c});
    var r := WalkChildren(els, ks, i + 1, rm1);
    WalkStepShrinks(els, rm, c, rm1);
    WalkChildrenAdds(els, ks, i, rm);
    assert Below(els, c, rm + {c}, rm1) by {
      WalkOrphansBelow(els, c, rm + {c});
    }
    assert Below(els, root, rm1, r) by {
      WalkChildrenBelow(els, ks, i + 1, rm1, root);
    }
    BelowTrans(els, root, c, rm, rm1, r);
  }

  /** The walk over a child it adds continues from what that child's walk collected. */
  lemma WalkChildrenAdds(els: Dict<Value>, ks: seq<string>, i: nat, rm: set<string>)
    requires i < |ks| && Adds(els, rm, ks[i])
    ensures WalkChildren(els, ks, i, rm) == WalkChildren(els, ks, i + 1, WalkOrphans(els, ks[i], rm + {ks[i]}))
  {
  }

  /** Adding a child shrinks the names left to visit, and its walk does not let them grow. */
  lemma WalkStepShrinks(els: Dict<Value>, rm: set<string>, c: string, rm1: set<string>)
    requires c in KeySet(els) && c !in rm && rm + {c} <= rm1
    ensures |KeySet(els) - (rm + {c})| < |KeySet(els) - rm|
    ensures |KeySet(els) - rm1| <= |KeySet(els) - rm|
  {
    assert KeySet(els) - rm == (KeySet(els) - (rm + {c})) + {c};
    Schema.SubsetCard(KeySet(els) - rm1, KeySet(els) - rm);
  }

  /** What a child's walk adds descends from the root, and so does what the later walks add. */
  lemma BelowTrans(els: Dict<Value>, root: string, c: string, rm: set<string>, rm1: set<string>, r: set<string>)
    requires rm + {c} <= rm1 <= r && Descends(els, root, c)
    requires Below(els, c, rm + {c}, rm1) && Below(els, root, rm1, r)
    ensures Below(els, root, rm, r)
  {
    forall x | x in rm1 && x !in rm && x != c ensures Descends(els, root, x) {
      DescendsTrans(els, root, c, x);
    }
  }

  /**
   `_collect_descendants`: `elem` together with what the walk from it
   adds. The result is closed (see `Complete`): a child of a collected
   name is collected unless it is `choice`, has no element entry, or is
   listed by an element outside the result.
   */
  function CollectDescendants(els: Dict<Value>, elem: string): (r: set<string>)
    ensures elem in r
    ensures DistinctKeys(els) ==> Complete(els, r, true)
  {
    var r := WalkOrphans(els, elem, {elem});
    assert DistinctKeys(els) ==> Complete(els, r, true) by {
      if DistinctKeys(els) {
        WalkOrphansComplete(els, elem, {elem});
        assert {elem} + (r - {elem}) == r;
      }
    }
    r
  }

  /**
   Every name the collection adds besides `elem` is an element entry, a
   descendant of `elem`, and listed by no element that survives.
   */
  lemma CollectDescendantsSound(els: Dict<Value>, elem: string)
    ensures forall x :: x in CollectDescendants(els, elem) && x != elem ==>
      && x in Keys(els)
      && Descends(els, elem, x)
      && forall i :: 0 <= i < |els| && els[i].key !in CollectDescendants(els, elem) ==> x !in ChildKeysOf(els[i].val)
  {
    WalkOrphansUnlisted(els, elem, {elem});
    WalkOrphansBelow(els, elem, {elem});
  }

  // ---------------------------------------------------------------------
  // Completeness: the walk leaves no orphan behind.
  // ---------------------------------------------------------------------

  /**
   A child that a walk rightly leaves where it is: it is already in `rm`,
   it is the `choice` key when the walk skips that key, it has no element
   entry, or an entry whose name is outside `out` lists it.
   */
  predicate Kept(els: Dict<Value>, rm: set<string>, out: set<string>, skipChoice: bool, c: string)
  {
    c in rm || (skipChoice && c == "choice") || c !in Keys(els) || !Unreferenced(els, out, c)
  }

  /** The names `ks[i..]` are kept in that sense. */
  ghost predicate AllKept(els: Dict<Value>, ks: seq<string>, i: nat, r: set<string>, skipChoice: bool)
  {
    forall j :: i <= j < |ks| ==> Kept(els, r, r, skipChoice, ks[j])
  }

  /** Every child of a name in `ps` is kept in that sense. */
  ghost predicate Settled(els: Dict<Value>, ps: set<string>, rm: set<string>, out: set<string>, skipChoice: bool)
  {
    forall p, c :: p in ps && c in ChildrenOf(els, p) ==> Kept(els, rm, out, skipChoice, c)
  }

  /**
   The removal set `rm` is closed: every child of a removed name is
   removed too, or is the skipped `choice` key, or has no element entry,
   or is still listed by an entry that is not removed.
   */
  ghost predicate Complete(els: Dict<Value>, rm: set<string>, skipChoice: bool)
  {
    Settled(els, rm, rm, rm, skipChoice)
  }

  /** The lister of a child, in a dict with distinct keys, has that child among its `ChildrenOf`. */
  lemma ListerLists(els: Dict<Value>, c: string, y: string)
    requires DistinctKeys(els) && y in Listers(els, c)
    ensures c in ChildrenOf(els, y)
  {
    var i :| 0 <= i < |els| && c in ChildKeysOf(els[i].val) && els[i].key == y;
    GetAt(els, i);
  }

  /**
   A child kept against `rm` stays kept against `r` when every name the
   later walks added (`r - rm`) had its own children settled against `r`.
   */
  lemma KeptLift(els: Dict<Value>, rm: set<string>, r: set<string>, skipChoice: bool, c: string)
    requires DistinctKeys(els) && rm <= r
    requires Settled(els, r - rm, r, r, skipChoice) && Kept(els, rm, rm, skipChoice, c)
    ensures Kept(els, r, r, skipChoice, c)
  {
    if !Unreferenced(els, rm, c) && Unreferenced(els, r, c) {
      var y :| y in Listers(els, c) && y !in rm;
      ListerLists(els, c, y);
    }
  }

  /** Two consecutive settled stretches of a walk make one. */
  lemma SettledGrow(els: Dict<Value>, rm: set<string>, rm1: set<string>, r: set<string>, skipChoice: bool)
    requires DistinctKeys(els) && rm <= rm1 <= r
    requires Settled(els, rm1 - rm, rm1, rm1, skipChoice) && Settled(els, r - rm1, r, r, skipChoice)
    ensures Settled(els, r - rm, r, r, skipChoice)
  {
    forall p, c | p in r - rm && c in ChildrenOf(els, p) ensures Kept(els, r, r, skipChoice, c) {
      if p in rm1 {
        KeptLift(els, rm1, r, skipChoice, c);
      }
    }
  }

  lemma {:induction false} WalkOrphansComplete(els: Dict<Value>, elem: string, rm: set<string>)
    requires DistinctKeys(els)
    ensures var r := WalkOrphans(els, elem, rm);
      Settled(els, {elem} + (r - rm), r, r, true)
    decreases |KeySet(els) - rm|, 1, 0
  {
    var ks := ChildrenOf(els, elem);
    var r := WalkOrphans(els, elem, rm);
    WalkChildrenComplete(els, ks, 0, rm);
    forall p, c | p in {elem} + (r - rm) && c in ChildrenOf(els, p) ensures Kept(els, r, r, true, c) {
      if p == elem {
        var j :| 0 <= j < |ks| && ks[j] == c;
        assert AllKept(els, ks, 0, r, true);
      }
    }
  }

  lemma {:induction false} WalkChildrenComplete(els: Dict<Value>, ks: seq<string>, i: nat, rm: set<string>)
    requires DistinctKeys(els) && i <= |ks|
    ensures var r := WalkChildren(els, ks, i, rm);
      && Settled(els, r - rm, r, r, true)
      && AllKept(els, ks, i, r, true)
    decreases |KeySet(els) - rm|, 0, |ks| - i
  {
    if i < |ks| {
      if !Adds(els, rm, ks[i]) {
        WalkChildrenComplete(els, ks, i + 1, rm);
        KeptLift(els, rm, WalkChildren(els, ks, i + 1, rm), true, ks[i]);
        AllKeptCons(els, ks, i, WalkChildren(els, ks, i + 1, rm), true);
      } else {
        WalkChildComplete(els, ks, i, rm);
      }
    }
  }

  /** The step of `WalkChildrenComplete` for a child the walk adds. */
  lemma {:induction false} WalkChildComplete(els: Dict<Value>, ks: seq<string>, i: nat, rm: set<string>)
    requires DistinctKeys(els) && i < |ks| && Adds(els, rm, ks[i])
    ensures var r := WalkChildren(els, ks, i, rm);
      && Settled(els, r - rm, r, r, true)
      && AllKept(els, ks, i, r, true)
    decreases |KeySet(els) - rm|, 0, |ks| - i, 0
  {
    var c := ks[i];
    var rm1 := WalkOrphans(els, c, rm + {c});
    var r := WalkChildren(els, ks, i + 1, rm1);
    WalkStepShrinks(els, rm, c, rm1);
    WalkChildrenAdds(els, ks, i, rm);
    WalkOrphansComplete(els, c, rm + {c});
    WalkChildrenComplete(els, ks, i + 1, rm1);
    AddedSettled(els, rm, c, rm1, r);
    AllKeptCons(els, ks, i, r, true);
  }

  /** A child's walk and the walks after it, each settled, settle everything added since `rm`. */
  lemma AddedSettled(els: Dict<Value>, rm: set<string>, c: string, rm1: set<string>, r: set<string>)
    requires DistinctKeys(els) && c !in rm && rm + {c} <= rm1 <= r
    requires Settled(els, {c} + (rm1 - (rm + {c})), rm1, rm1, true) && Settled(els, r - rm1, r, r, true)
    ensures Settled(els, r - rm, r, r, true) && Kept(els, r, r, true, c)
  {
    assert {c} + (rm1 - (rm + {c})) == rm1 - rm;
    SettledGrow(els, rm, rm1, r, true);
  }

  lemma AllKeptCons(els: Dict<Value>, ks: seq<string>, i: nat, r: set<string>, skipChoice: bool)
    requires i < |ks| && Kept(els, r, r, skipChoice, ks[i]) && AllKept(els, ks, i + 1, r, skipChoice)
    ensures AllKept(els, ks, i, r, skipChoice)
  {
  }

  // ---------------------------------------------------------------------
  // Pruning the remaining entries.
  // ---------------------------------------------------------------------

  /** Whether `k` stays in a `children` mapping: not removed, or the `choice` key. */
  predicate Survives(rm: set<string>, k: string)
  {
    k !in rm || k == "choice"
  }

  /**
   The update of one entry: a mapping entry whose `children` is a
   mapping keeps the surviving children, or loses `children` when none
   survive; any other entry is left as it is.
   */
  function PruneEntry(v: Value, rm: set<string>): (r: Value)
    ensures r.Map? <==> v.Map?
    ensures forall f :: f != "children" ==> Field(r, f) == Field(v, f)
    ensures forall k :: k in ChildKeysOf(r) <==> k in ChildKeysOf(v) && Survives(rm, k)
    ensures forall k :: Survives(rm, k) ==> Get(ChildMapOf(r), k) == Get(ChildMapOf(v), k)
    ensures Field(v, "children").Some? && Field(v, "children").value.Map? ==>
      (Field(r, "children").None? <==> forall k :: k in ChildKeysOf(v) ==> !Survives(rm, k))
    ensures !(Field(v, "children").Some? && Field(v, "children").value.Map?) ==> r == v
  {
    PruneChildren(v, k => Survives(rm, k))
  }

  /** Every entry pruned, in order. */
  function PruneAll(els: Dict<Value>, rm: set<string>): (r: Dict<Value>)
    ensures Keys(r) == Keys(els)
    ensures forall i :: 0 <= i < |els| ==> r[i].val == PruneEntry(els[i].val, rm)
  {
    seq(|els|, i requires 0 <= i < |els| => Entry(els[i].key, PruneEntry(els[i].val, rm)))
  }

  /** The elements after the collapse of `elem`. */
  function CollapseElements(els: Dict<Value>, elem: string): (r: Dict<Value>)
    ensures var rm := CollectDescendants(els, elem);
      forall k :: k in Keys(r) <==> k in Keys(els) && k !in rm
  {
    var rm := CollectDescendants(els, elem);
    FilterKeys(PruneAll(els, rm), k => k !in rm);
    Filter(PruneAll(els, rm), k => k !in rm)
  }

  /**
   `collapse_element`: the text unchanged when the document has no
   `profile` mapping or its `elements` is present but not a mapping;
   without `elements` the document is dumped as it is.
   */
  function CollapseElement(raw: Value, elem: string): (r: Outcome)
    ensures r.Unchanged? <==> ProfileOf(raw).None? || (ElementsOf(raw).None? && Get(ProfileOf(raw).value, "elements").Some?)
    ensures r.Raised? == false
    ensures r.Dumped? ==> forall k :: k != "profile" ==> Field(r.raw, k) == Field(raw, k)
  {
    match ProfileOf(raw)
    case None => Unchanged
    case Some(profile) =>
      if Get(profile, "elements").None? then Dumped(raw)
      else
        match ElementsOf(raw)
        case None => Unchanged
        case Some(els) => Dumped(WithElements(raw, CollapseElements(els, elem)))
  }

  // ---------------------------------------------------------------------
  // What a collapse leaves.
  // ---------------------------------------------------------------------

  /**
   After collapsing `elem`: the target is gone, every other entry that is
   not a removed descendant survives pruned, and no surviving entry lists
   a removed name except under the `choice` key.
   */
  lemma CollapseElementsContents(els: Dict<Value>, elem: string)
    ensures var rm := CollectDescendants(els, elem);
      var out := CollapseElements(els, elem);
      && elem !in Keys(out)
      && (forall k :: k in Keys(els) && k !in rm ==> Get(out, k) == Some(PruneEntry(Get(els, k).value, rm)))
      && (forall k, x :: k in Keys(out) && x in rm && x != "choice" ==> x !in ChildKeysOf(Get(out, k).value))
  {
    var rm := CollectDescendants(els, elem);
    var p := PruneAll(els, rm);
    var out := CollapseElements(els, elem);
    FilterKeys(p, k => k !in rm);
    FilterGet(p, k => k !in rm);
    forall k | k in Keys(els) && k !in rm ensures Get(out, k) == Some(PruneEntry(Get(els, k).value, rm)) {
      IndexOfSameKeys(els, p, k);
    }
  }

  /**
   A removed descendant was listed by no element that survives, before
   the collapse as after it; the target itself may have been. Conversely,
   an element entry that a removed element listed, other than `choice`,
   survives only when a surviving element lists it too.
   */
  lemma CollapseRemovesOnlyOrphans(els: Dict<Value>, elem: string)
    ensures var rm := CollectDescendants(els, elem);
      forall x :: x in rm && x != elem ==>
        && x in Keys(els)
        && Descends(els, elem, x)
        && forall k :: k in Keys(els) && k !in rm ==> x !in ChildrenOf(els, k)
    ensures DistinctKeys(els) ==> var rm := CollectDescendants(els, elem);
      forall p, x :: p in rm && x in ChildrenOf(els, p) && x !in rm && x != "choice" && x in Keys(els) ==>
        exists k :: k in Keys(els) && k !in rm && x in ChildrenOf(els, k)
  {
    var rm := CollectDescendants(els, elem);
    CollectDescendantsSound(els, elem);
    forall x, k | x in rm && x != elem && k in Keys(els) && k !in rm ensures x !in ChildrenOf(els, k) {
      var i := IndexOf(els, k).value;
      assert els[i].key !in rm;
    }
    if DistinctKeys(els) {
      forall p, x | p in rm && x in ChildrenOf(els, p) && x !in rm && x != "choice" && x in Keys(els)
        ensures exists k :: k in Keys(els) && k !in rm && x in ChildrenOf(els, k)
      {
        assert Kept(els, rm, rm, true, x);
        var y :| y in Listers(els, x) && y !in rm;
        ListerLists(els, x, y);
      }
    }
  }

  /** The `choice` value of every surviving `children` mapping is left as it was. */
  lemma CollapseKeepsChoice(els: Dict<Value>, elem: string)
    ensures var rm := CollectDescendants(els, elem);
      var out := CollapseElements(els, elem);
      forall k :: k in Keys(out) ==> Get(ChildMapOf(Get(out, k).value), "choice") == Get(ChildMapOf(Get(els, k).value), "choice")
  {
    CollapseElementsContents(els, elem);
  }
}
