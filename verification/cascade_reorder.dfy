/**
 `reorder_profile` and its helpers `reorder_children` and
 `reorder_attributes` (`models/cascade.py`): the children and attributes
 of every element go into XSD field order — required fields first, then
 optional ones, then names the schema does not declare, and a `choice`
 block last — and the elements themselves into the order
 `compute_element_order` gives.
 */
module CascadeReorder {
  import opened Wrappers
  import opened Dicts
  import opened Yaml
  import opened Schema
  import opened StableSort
  import opened CascadeKit
  import opened CascadeOrder

  /** One declared field of an element: its XML name and whether the XSD requires it. */
  datatype Slot = Slot(name: string, required: bool)

  function ChildSlots(cs: seq<ChildInfo>): (r: seq<Slot>)
    ensures |r| == |cs|
    ensures forall i :: 0 <= i < |cs| ==> r[i] == Slot(cs[i].name, cs[i].required)
  {
    seq(|cs|, i requires 0 <= i < |cs| => Slot(cs[i].name, cs[i].required))
  }

  function AttrSlots(attrs: seq<AttrInfo>): (r: seq<Slot>)
    ensures |r| == |attrs|
    ensures forall i :: 0 <= i < |attrs| ==> r[i] == Slot(attrs[i].name, attrs[i].required)
  {
    seq(|attrs|, i requires 0 <= i < |attrs| => Slot(attrs[i].name, attrs[i].required))
  }

  /**
   `xsd_order.get(k, (2, 999))`, where `xsd_order` maps every declared name
   to `(0 if required else 1, i)`. Being a dict comprehension, it keeps the
   last position at which a name is declared.
   */
  function XsdRank(slots: seq<Slot>, k: string): (r: Rank)
    ensures r.major == 2 <==> forall i :: 0 <= i < |slots| ==> slots[i].name != k
    ensures r.major == 2 ==> r.minor == 999
    ensures r.major != 2 ==>
      && 0 <= r.minor < |slots| && slots[r.minor].name == k
      && r.major == (if slots[r.minor].required then 0 else 1)
      && forall i :: r.minor < i < |slots| ==> slots[i].name != k
  {
    if slots == [] then Rank(2, 999)
    else
      var n := |slots| - 1;
      if slots[n].name == k then Rank(if slots[n].required then 0 else 1, n)
      else
        assert forall i :: 0 <= i < n ==> slots[..n][i] == slots[i];
        XsdRank(slots[..n], k)
  }

  /** The sort key of a dict entry: the rank of its key. */
  function ByXsd(slots: seq<Slot>): Entry<Value> -> Rank
  {
    (e: Entry<Value>) => XsdRank(slots, e.key)
  }

  /**
   `r` is `d` stably sorted by XSD rank: the same entries, in rank order,
   and entries of equal rank in their order in `d`.
   */
  ghost predicate Arranged(r: Dict<Value>, d: Dict<Value>, slots: seq<Slot>)
  {
    && multiset(r) == multiset(d)
    && SortedBy(r, ByXsd(slots))
    && forall q :: WithRank(r, ByXsd(slots), q) == WithRank(d, ByXsd(slots), q)
  }

  /** A key absent from a dict is absent from every rearrangement of it. */
  lemma AbsentFromPermutation(a: Dict<Value>, b: Dict<Value>, k: string)
    requires multiset(a) == multiset(b) && k !in Keys(a)
    ensures k !in Keys(b)
  {
    forall i | 0 <= i < |b| ensures b[i].key != k {
      assert b[i] in multiset(a);
      var p :| 0 <= p < |a| && a[p] == b[i];
      assert Keys(a)[p] == a[p].key;
    }
  }

  /**
   The body of `reorder_children` once the element is known: the entries
   other than `choice` sorted by XSD rank, then `choice`, whose mapping
   value is itself sorted by XSD rank.
   */
  function OrderChildren(children: Dict<Value>, slots: seq<Slot>): (r: Dict<Value>)
    ensures "choice" in Keys(r) <==> "choice" in Keys(children)
    ensures "choice" in Keys(children) ==> r[|r| - 1].key == "choice"
    ensures Arranged(Remove(r, "choice"), Remove(children, "choice"), slots)
    ensures Get(children, "choice").Some? && !Get(children, "choice").value.Map? ==>
      Get(r, "choice") == Get(children, "choice")
    ensures Get(children, "choice").Some? && Get(children, "choice").value.Map? ==>
      && Get(r, "choice").Some? && Get(r, "choice").value.Map?
      && Arranged(Get(r, "choice").value.entries, Get(children, "choice").value.entries, slots)
  {
    var rest := Remove(children, "choice");
    var body := SortBy(rest, ByXsd(slots));
    AbsentFromPermutation(rest, body, "choice");
    match Get(children, "choice")
    case None =>
      RemoveAbsent(body, "choice");
      body
    case Some(cv) =>
      var last := if cv.Map? then Map(SortBy(cv.entries, ByXsd(slots))) else cv;
      RemoveAppended(body, "choice", last);
      GetAppend(body, Entry("choice", last), "choice");
      body + [Entry("choice", last)]
  }

  /**
   Reordering keeps every child with its value and keeps `choice` present
   or absent.
   */
  lemma OrderChildrenContents(children: Dict<Value>, slots: seq<Slot>)
    requires DistinctKeys(children)
    ensures DistinctKeys(OrderChildren(children, slots))
    ensures forall k :: k != "choice" ==> Get(OrderChildren(children, slots), k) == Get(children, k)
    ensures Get(children, "choice").Some? <==> Get(OrderChildren(children, slots), "choice").Some?
  {
    var rest := Remove(children, "choice");
    var body := SortBy(rest, ByXsd(slots));
    PermutedDict(rest, body);
    AbsentFromPermutation(rest, body, "choice");
    match Get(children, "choice")
    case None =>
      assert OrderChildren(children, slots) == body;
    case Some(cv) =>
      var last := if cv.Map? then Map(SortBy(cv.entries, ByXsd(slots))) else cv;
      assert OrderChildren(children, slots) == body + [Entry("choice", last)];
      AppendFresh(body, Entry("choice", last));
  }

  /** The members of a `choice` mapping keep their values too. */
  lemma OrderChoiceContents(children: Dict<Value>, slots: seq<Slot>, cd: Dict<Value>)
    requires Get(children, "choice") == Some(Map(cd)) && DistinctKeys(cd)
    ensures Get(OrderChildren(children, slots), "choice").Some?
    ensures Get(OrderChildren(children, slots), "choice").value.Map?
    ensures DistinctKeys(Get(OrderChildren(children, slots), "choice").value.entries)
    ensures forall k :: Get(Get(OrderChildren(children, slots), "choice").value.entries, k) == Get(cd, k)
  {
    PermutedDict(cd, Get(OrderChildren(children, slots), "choice").value.entries);
  }

  /** Reordering reordered children changes nothing. */
  lemma OrderChildrenIdempotent(children: Dict<Value>, slots: seq<Slot>)
    ensures OrderChildren(OrderChildren(children, slots), slots) == OrderChildren(children, slots)
  {
    var r := OrderChildren(children, slots);
    var rest := Remove(children, "choice");
    var body := SortBy(rest, ByXsd(slots));
    AbsentFromPermutation(rest, body, "choice");
    SortBySorted(body, ByXsd(slots));
    match Get(children, "choice")
    case None =>
      assert r == body;
      RemoveAbsent(body, "choice");
    case Some(cv) =>
      var last := if cv.Map? then Map(SortBy(cv.entries, ByXsd(slots))) else cv;
      assert r == body + [Entry("choice", last)];
      RemoveAppended(body, "choice", last);
      GetAppend(body, Entry("choice", last), "choice");
      if cv.Map? {
        SortByIdempotent(cv.entries, ByXsd(slots));
      }
  }

  /** `reorder_children`: an element the schema does not know keeps its children as they are. */
  function ReorderChildren(children: Dict<Value>, ename: string, s: AknSchema): (r: Dict<Value>)
    ensures !HasElement(s, ename) ==> r == children
    ensures HasElement(s, ename) ==> r == OrderChildren(children, ChildSlots(GetElementInfo(s, ename).value.children))
  {
    match GetElementInfo(s, ename)
    case None => children
    case Some(info) => OrderChildren(children, ChildSlots(info.children))
  }

  /** `reorder_attributes`: every attribute, sorted by XSD rank; unknown elements are left alone. */
  function ReorderAttributes(attrs: Dict<Value>, ename: string, s: AknSchema): (r: Dict<Value>)
    ensures !HasElement(s, ename) ==> r == attrs
    ensures HasElement(s, ename) ==> Arranged(r, attrs, AttrSlots(GetElementInfo(s, ename).value.attributes))
  {
    match GetElementInfo(s, ename)
    case None => attrs
    case Some(info) => SortBy(attrs, ByXsd(AttrSlots(info.attributes)))
  }

  /** Reordering keeps every attribute with its value. */
  lemma ReorderAttributesContents(attrs: Dict<Value>, ename: string, s: AknSchema)
    requires DistinctKeys(attrs)
    ensures DistinctKeys(ReorderAttributes(attrs, ename, s))
    ensures forall k :: Get(ReorderAttributes(attrs, ename, s), k) == Get(attrs, k)
  {
    PermutedDict(attrs, ReorderAttributes(attrs, ename, s));
  }

  lemma ReorderAttributesIdempotent(attrs: Dict<Value>, ename: string, s: AknSchema)
    ensures ReorderAttributes(ReorderAttributes(attrs, ename, s), ename, s) == ReorderAttributes(attrs, ename, s)
  {
    if HasElement(s, ename) {
      SortByIdempotent(attrs, ByXsd(AttrSlots(GetElementInfo(s, ename).value.attributes)));
    }
  }

  lemma ReorderChildrenIdempotent(children: Dict<Value>, ename: string, s: AknSchema)
    ensures ReorderChildren(ReorderChildren(children, ename, s), ename, s) == ReorderChildren(children, ename, s)
  {
    if HasElement(s, ename) {
      OrderChildrenIdempotent(children, ChildSlots(GetElementInfo(s, ename).value.children));
    }
  }

  /** A field value after `if isinstance(v, dict): v = f(v)`. */
  function Reordered(v: Option<Value>, f: Dict<Value> -> Dict<Value>): Option<Value>
  {
    match v
    case Some(Map(c)) => Some(Map(f(c)))
    case _ => v
  }

  /** One `if key in edata and isinstance(edata[key], dict): edata[key] = f(...)` of the loop. */
  function ReorderField(ed: Dict<Value>, key: string, f: Dict<Value> -> Dict<Value>): (r: Dict<Value>)
    ensures Keys(r) == Keys(ed)
    ensures Get(r, key) == Reordered(Get(ed, key), f)
    ensures forall k :: k != key ==> Get(r, k) == Get(ed, k)
  {
    var v: Option<Value> := Get(ed, key);
    match v
    case Some(Map(c)) => Put(ed, key, Map(f(c)))
    case _ => ed
  }

  /** A field that is already in order is left as it is. */
  lemma ReorderFieldDone(ed: Dict<Value>, key: string, f: Dict<Value> -> Dict<Value>)
    requires Reordered(Get(ed, key), f) == Get(ed, key)
    ensures ReorderField(ed, key, f) == ed
  {
    var v: Option<Value> := Get(ed, key);
    match v {
      case Some(Map(c)) => PutSame(ed, key, Map(f(c)));
      case _ =>
    }
  }

  /**
   The loop body of `reorder_profile` for one element: a mapping gets its
   `children` and then its `attributes` mapping reordered in place;
   anything else is skipped.
   */
  function ReorderEntry(ename: string, edata: Value, s: AknSchema): (r: Value)
    ensures !edata.Map? ==> r == edata
    ensures edata.Map? ==> r.Map? && Keys(r.entries) == Keys(edata.entries)
    ensures edata.Map? ==> forall k :: k != "children" && k != "attributes" ==> Get(r.entries, k) == Get(edata.entries, k)
    ensures edata.Map? ==> Get(r.entries, "children") == Reordered(Get(edata.entries, "children"), ChildrenOf(ename, s))
    ensures edata.Map? ==> Get(r.entries, "attributes") == Reordered(Get(edata.entries, "attributes"), AttributesOf(ename, s))
  {
    match edata
    case Map(ed) => Map(ReorderField(ReorderField(ed, "children", ChildrenOf(ename, s)), "attributes", AttributesOf(ename, s)))
    case _ => edata
  }

  function ChildrenOf(ename: string, s: AknSchema): Dict<Value> -> Dict<Value>
  {
    c => ReorderChildren(c, ename, s)
  }

  function AttributesOf(ename: string, s: AknSchema): Dict<Value> -> Dict<Value>
  {
    a => ReorderAttributes(a, ename, s)
  }

  /** Reordering an element entry twice is reordering it once. */
  lemma ReorderEntryIdempotent(ename: string, edata: Value, s: AknSchema)
    ensures ReorderEntry(ename, ReorderEntry(ename, edata, s), s) == ReorderEntry(ename, edata, s)
  {
    if edata.Map? {
      var r := ReorderEntry(ename, edata, s);
      var gc: Option<Value> := Get(edata.entries, "children");
      var ga: Option<Value> := Get(edata.entries, "attributes");
      match gc {
        case Some(Map(c)) => ReorderChildrenIdempotent(c, ename, s);
        case _ =>
      }
      match ga {
        case Some(Map(a)) => ReorderAttributesIdempotent(a, ename, s);
        case _ =>
      }
      ReorderFieldDone(r.entries, "children", ChildrenOf(ename, s));
      ReorderFieldDone(r.entries, "attributes", AttributesOf(ename, s));
    }
  }

  /** The element mapping with every entry passed through `ReorderEntry`, in its order. */
  function ReorderEntries(d: Dict<Value>, s: AknSchema): (r: Dict<Value>)
    ensures |r| == |d|
    ensures forall i :: 0 <= i < |d| ==> r[i] == Entry(d[i].key, ReorderEntry(d[i].key, d[i].val, s))
  {
    seq(|d|, i requires 0 <= i < |d| => Entry(d[i].key, ReorderEntry(d[i].key, d[i].val, s)))
  }

  /** Looking an element up after the loop finds its reordered entry. */
  lemma ReorderEntriesGet(d: Dict<Value>, s: AknSchema, k: string)
    ensures Get(ReorderEntries(d, s), k).Some? <==> Get(d, k).Some?
    ensures Get(d, k).Some? ==> Get(ReorderEntries(d, s), k) == Some(ReorderEntry(k, Get(d, k).value, s))
  {
    var r := ReorderEntries(d, s);
    assert Keys(r) == Keys(d);
    IndexOfSameKeys(r, d, k);
  }

  /**
   `reorder_profile`: unchanged text unless `profile.elements` is a
   mapping; otherwise every element reordered within, the elements in
   canonical order, and the document dumped with nothing outside
   `profile.elements` changed.
   */
  function ReorderProfile(raw: Value, s: AknSchema): (r: Outcome)
    ensures r != Raised
    ensures r.Unchanged? <==> ElementsOf(raw).None?
    ensures r.Dumped? ==> ElementsOf(r.raw).Some?
    ensures r.Dumped? ==> forall k :: k != "elements" ==> Get(ProfileOf(r.raw).value, k) == Get(ProfileOf(raw).value, k)
    ensures r.Dumped? ==> forall k :: k != "profile" ==> Yaml.Field(r.raw, k) == Yaml.Field(raw, k)
  {
    match ElementsOf(raw)
    case None => Unchanged
    case Some(els) =>
      Dumped(WithElements(raw, ApplyElementOrder(ReorderEntries(els, s))))
  }

  /**
   A dump of `reorder_profile` holds the same elements, each with its own
   children and attributes reordered.
   */
  lemma ReorderProfileElements(raw: Value, s: AknSchema)
    requires ElementsOf(raw).Some?
    ensures ReorderProfile(raw, s).Dumped? && ElementsOf(ReorderProfile(raw, s).raw).Some?
    ensures DistinctKeys(ElementsOf(ReorderProfile(raw, s).raw).value)
    ensures forall k :: k in Keys(ElementsOf(ReorderProfile(raw, s).raw).value) <==> k in Keys(ElementsOf(raw).value)
    ensures forall k :: Get(ElementsOf(raw).value, k).Some? ==>
      Get(ElementsOf(ReorderProfile(raw, s).raw).value, k) == Some(ReorderEntry(k, Get(ElementsOf(raw).value, k).value, s))
  {
    var els := ElementsOf(raw).value;
    var m := ReorderEntries(els, s);
    var ordered := ApplyElementOrder(m);
    assert ElementsOf(ReorderProfile(raw, s).raw) == Some(ordered);
    assert Keys(m) == Keys(els);
    forall k | Get(els, k).Some? ensures Get(ordered, k) == Some(ReorderEntry(k, Get(els, k).value, s)) {
      ReorderEntriesGet(els, s, k);
    }
  }

  /** The elements of a dump of `reorder_profile` are listed in the order `compute_element_order` gives for them. */
  lemma ReorderProfileCanonical(raw: Value, s: AknSchema)
    requires ElementsOf(raw).Some?
    ensures ReorderProfile(raw, s).Dumped? && ElementsOf(ReorderProfile(raw, s).raw).Some?
    ensures Keys(ElementsOf(ReorderProfile(raw, s).raw).value) == ComputeElementOrder(ElementsOf(ReorderProfile(raw, s).raw).value)
  {
    var m := ReorderEntries(ElementsOf(raw).value, s);
    var ordered := ApplyElementOrder(m);
    assert ElementsOf(ReorderProfile(raw, s).raw) == Some(ordered);
    OrderIgnoresListing(ordered, m);
  }

  /** Reordering a reordered profile dumps the same document again. */
  lemma ReorderProfileIdempotent(raw: Value, s: AknSchema)
    requires ReorderProfile(raw, s).Dumped?
    ensures ReorderProfile(ReorderProfile(raw, s).raw, s) == ReorderProfile(raw, s)
  {
    var els := ElementsOf(raw).value;
    var m := ReorderEntries(els, s);
    var ordered := ApplyElementOrder(m);
    var raw1 := WithElements(raw, ordered);
    assert ReorderProfile(raw, s) == Dumped(raw1);
    assert ElementsOf(raw1) == Some(ordered);
    forall i | 0 <= i < |ordered| ensures ReorderEntries(ordered, s)[i] == ordered[i] {
      var k := ordered[i].key;
      GetAt(ordered, i);
      ReorderEntriesGet(els, s, k);
      ReorderEntryIdempotent(k, Get(els, k).value, s);
    }
    assert ReorderEntries(ordered, s) == ordered;
    ApplyElementOrderIdempotent(m);
    WithElementsSame(raw1, ordered);
  }
}
