/**
 `_ensure_akomantoso_root` (`models/cascade.py`): after an expand the root
 element `akomaNtoso` has an entry, lists as children the declared
 document types that have entries, and comes first among the elements.
 */
module CascadeRoot {
  import opened Wrappers
  import opened Dicts
  import opened Yaml
  import opened CascadeOrder
  import opened CascadeKit

  // ---------------------------------------------------------------------
  // `doc_types` and `present_doc_types`.
  // ---------------------------------------------------------------------

  /** What `for dt in items` offers `dt in elements` from a list: its strings; `None` when an item is unhashable. */
  function ListCandidates(items: seq<Value>): (r: Option<seq<string>>)
    ensures r.None? <==> exists i :: 0 <= i < |items| && (items[i].List? || items[i].Map?)
    ensures r.Some? ==> forall x :: x in r.value <==> Str(x) in items
  {
    if items == [] then Some([])
    else
      var rest := ListCandidates(items[1..]);
      assert forall i :: 1 <= i < |items| ==> items[i] == items[1..][i - 1];
      assert items == [items[0]] + items[1..];
      if items[0].List? || items[0].Map? then None
      else if rest.None? then None
      else Some((if items[0].Str? then [items[0].s] else []) + rest.value)
  }

  /** The one-character strings `for dt in s` yields from a string. */
  function Chars(s: string): (r: seq<string>)
    ensures |r| == |s|
    ensures forall i :: 0 <= i < |s| ==> r[i] == [s[i]]
  {
    seq(|s|, i requires 0 <= i < |s| => [s[i]])
  }

  /**
   The strings `for dt in doc_types` yields, where `doc_types` is
   `profile.get("documentTypes", []) or []`: nothing from a false value,
   the strings of a list, the characters of a string, the keys of a
   mapping; `None` where Python raises `TypeError` — a true number or
   boolean, or a list holding a list or a mapping.
   */
  function DocTypes(profile: Dict<Value>): (r: Option<seq<string>>)
    ensures var dt := Get(profile, "documentTypes");
      r.None? <==> (dt.Some? && Truthy(dt.value) &&
        (dt.value.Int? || dt.value.Bool? || (dt.value.List? && ListCandidates(dt.value.items).None?)))
    ensures var dt := Get(profile, "documentTypes");
      dt.None? || !Truthy(dt.value) ==> r == Some([])
    ensures var dt := Get(profile, "documentTypes");
      r.Some? && dt.Some? && dt.value.List? ==> forall x :: x in r.value <==> Str(x) in dt.value.items
    ensures var dt := Get(profile, "documentTypes");
      dt.Some? && dt.value.Str? ==> r == Some(Chars(dt.value.s))
    ensures var dt := Get(profile, "documentTypes");
      dt.Some? && dt.value.Map? ==> r == Some(Keys(dt.value.entries))
  {
    var dt: Option<Value> := Get(profile, "documentTypes");
    if dt.None? || !Truthy(dt.value) then Some([])
    else
      match dt.value
      case List(items) => ListCandidates(items)
      case Str(s) => Some(Chars(s))
      case Map(entries) => Some(Keys(entries))
      case _ => None
  }

  /** `[dt for dt in doc_types if dt in elements]`. */
  function PresentIn(cands: seq<string>, els: Dict<Value>): (r: seq<string>)
    ensures forall x :: x in r <==> x in cands && x in Keys(els)
  {
    if cands == [] then []
    else
      assert cands == [cands[0]] + cands[1..];
      (if cands[0] in Keys(els) then [cands[0]] else []) + PresentIn(cands[1..], els)
  }

  // ---------------------------------------------------------------------
  // The root entry.
  // ---------------------------------------------------------------------

  /** The cardinality a document type is listed with under the root. */
  const DocTypeCardinality: string := "1..1"

  /** `for dt in present: if dt not in children: children[dt] = "1..1"`. */
  function AddDocTypes(children: Dict<Value>, present: seq<string>): (r: Dict<Value>)
    ensures forall k :: k in Keys(r) <==> k in Keys(children) || k in present
    ensures forall k :: k in Keys(children) ==> Get(r, k) == Get(children, k)
    ensures forall k :: k !in Keys(children) && k in present ==> Get(r, k) == Some(Str(DocTypeCardinality))
    ensures DistinctKeys(children) ==> DistinctKeys(r)
    ensures (forall k :: k in present ==> k in Keys(children)) ==> r == children
    decreases |present|
  {
    if present == [] then children
    else
      var c1 := if present[0] in Keys(children) then children else Put(children, present[0], Str(DocTypeCardinality));
      assert present == [present[0]] + present[1..];
      AddDocTypes(c1, present[1..])
  }

  /**
   `akn_entry` after the update: the existing mapping (a missing or
   non-mapping entry counts as empty) with every present document type
   added to its `children`, which are replaced by an empty mapping first
   when they are not a mapping.
   */
  function RootEntry(cur: Option<Value>, present: seq<string>): (r: Dict<Value>)
    ensures present == [] ==> r == (if cur.Some? && cur.value.Map? then cur.value.entries else [])
    ensures present != [] ==> Field(Map(r), "children").Some? && Field(Map(r), "children").value.Map?
    ensures forall dt :: dt in present ==> dt in Keys(ChildMapOf(Map(r)))
    ensures cur.Some? ==> forall k :: k in Keys(ChildMapOf(cur.value)) ==> Get(ChildMapOf(Map(r)), k) == Get(ChildMapOf(cur.value), k)
    ensures cur.Some? && cur.value.Map? ==> forall k :: k != "children" ==> Get(r, k) == Get(cur.value.entries, k)
    ensures cur.Some? && cur.value.Map? && DistinctKeys(cur.value.entries) && DistinctKeys(ChildMapOf(cur.value)) ==> DistinctKeys(r)
  {
    var akn := if cur.Some? && cur.value.Map? then cur.value.entries else [];
    if present == [] then akn
    else
      var children := ChildMapOf(Map(akn));
      assert cur.Some? ==> children == ChildMapOf(cur.value);
      Put(akn, "children", Map(AddDocTypes(children, present)))
  }

  /** `akn_entry or None`. */
  function RootValue(akn: Dict<Value>): (r: Value)
    ensures r.Null? <==> akn == []
    ensures r.Map? ==> r.entries == akn
  {
    if akn == [] then Null else Map(akn)
  }

  /**
   `elements["akomaNtoso"] = v` and then the move to the front: a new
   mapping with the root first and the other entries after it, in order.
   */
  function SetRootFirst(els: Dict<Value>, v: Value): (r: Dict<Value>)
    ensures r != [] && r[0] == Entry(Root, v)
    ensures forall k :: k in Keys(r) <==> k in Keys(els) || k == Root
    ensures forall k :: Get(r, k) == if k == Root then Some(v) else Get(els, k)
    ensures DistinctKeys(els) ==> DistinctKeys(r)
  {
    var els1 := Put(els, Root, v);
    var rest := Remove(els1, Root);
    var r := [Entry(Root, Get(els1, Root).value)] + rest;
    forall k ensures Get(r, k) == if k == Root then Some(v) else Get(els, k) {
      GetCons(Entry(Root, v), rest, k);
    }
    KeysCons(Entry(Root, v), rest);
    r
  }

  /** Behind the root the other elements keep their order. */
  lemma SetRootFirstRest(els: Dict<Value>, v: Value)
    ensures Remove(SetRootFirst(els, v), Root) == Remove(els, Root)
  {
    var rest := Remove(Put(els, Root, v), Root);
    assert SetRootFirst(els, v) == [Entry(Root, v)] + rest;
    RemoveCons(Entry(Root, v), rest, Root);
    RemoveAbsent(rest, Root);
    RemovePut(els, Root, v);
  }

  /**
   `_ensure_akomantoso_root`: `None` where listing the document types
   raises. Otherwise the root's entry is set and moved to the front; the
   other elements keep their entries and their order.
   */
  function EnsureRoot(profile: Dict<Value>, els: Dict<Value>): (r: Option<Dict<Value>>)
    ensures r.None? <==> DocTypes(profile).None?
    ensures r.Some? ==> r.value != [] && r.value[0].key == Root
    ensures r.Some? ==> forall k :: k in Keys(r.value) <==> k in Keys(els) || k == Root
    ensures r.Some? ==> forall k :: k != Root ==> Get(r.value, k) == Get(els, k)
    ensures r.Some? ==> Remove(r.value, Root) == Remove(els, Root)
    ensures r.Some? ==> forall dt :: dt in DocTypes(profile).value && dt in Keys(els) ==> dt in Keys(ChildMapOf(Get(r.value, Root).value))
    ensures r.Some? && DistinctKeys(els) ==> DistinctKeys(r.value)
  {
    var cands :- DocTypes(profile);
    var present := PresentIn(cands, els);
    var akn := RootEntry(Get(els, Root), present);
    var v := RootValue(akn);
    SetRootFirstRest(els, v);
    assert forall dt :: dt in present ==> dt in Keys(ChildMapOf(v));
    Some(SetRootFirst(els, v))
  }

  // ---------------------------------------------------------------------
  // A second run changes nothing.
  // ---------------------------------------------------------------------

  /** `present_doc_types` depends only on which candidates have entries. */
  lemma {:induction false} PresentInSame(cands: seq<string>, a: Dict<Value>, b: Dict<Value>)
    requires forall x :: x in cands ==> (x in Keys(a) <==> x in Keys(b))
    ensures PresentIn(cands, a) == PresentIn(cands, b)
  {
    if cands != [] {
      PresentInSame(cands[1..], a, b);
    }
  }

  /** Putting the root first a second time, with the same entry, changes nothing. */
  lemma SetRootFirstAgain(els: Dict<Value>, v: Value)
    ensures SetRootFirst(SetRootFirst(els, v), v) == SetRootFirst(els, v)
  {
    var r := SetRootFirst(els, v);
    var rest := r[1..];
    assert r == [Entry(Root, v)] + rest;
    PutSame(r, Root, v);
    RemoveCons(Entry(Root, v), rest, Root);
    KeysCons(Entry(Root, v), rest);
    assert Root !in Keys(rest) by {
      var rest0 := Remove(Put(els, Root, v), Root);
      assert r == [Entry(Root, v)] + rest0;
      assert rest == rest0;
    }
    RemoveAbsent(rest, Root);
  }

  /** The root entry built from itself is itself: every present document type is already a child. */
  lemma RootEntryAgain(cur: Option<Value>, present: seq<string>)
    ensures RootEntry(Some(RootValue(RootEntry(cur, present))), present) == RootEntry(cur, present)
  {
    var akn := RootEntry(cur, present);
    var v := RootValue(akn);
    if present != [] {
      var children := ChildMapOf(Map(akn));
      assert ChildMapOf(v) == children;
      assert AddDocTypes(children, present) == children;
      PutSame(akn, "children", Map(children));
    }
  }

  /**
   `_ensure_akomantoso_root` is idempotent, unless `akomaNtoso` itself is
   named as a document type without having an entry: the first run gives
   it one, and the second then lists it as its own child.
   */
  lemma EnsureRootIdempotent(profile: Dict<Value>, els: Dict<Value>)
    requires EnsureRoot(profile, els).Some?
    requires Root in Keys(els) || Root !in DocTypes(profile).value
    ensures EnsureRoot(profile, EnsureRoot(profile, els).value) == EnsureRoot(profile, els)
  {
    var cands := DocTypes(profile).value;
    var present := PresentIn(cands, els);
    var akn := RootEntry(Get(els, Root), present);
    var v := RootValue(akn);
    var r := SetRootFirst(els, v);
    assert EnsureRoot(profile, els) == Some(r);
    PresentInSame(cands, els, r);
    assert Get(r, Root) == Some(v);
    RootEntryAgain(Get(els, Root), present);
    SetRootFirstAgain(els, v);
  }

  /** `documentTypes` is all the root step reads of the profile. */
  lemma EnsureRootReadsDocTypes(p1: Dict<Value>, p2: Dict<Value>, els: Dict<Value>)
    requires Get(p1, "documentTypes") == Get(p2, "documentTypes")
    ensures EnsureRoot(p1, els) == EnsureRoot(p2, els)
  {
    assert DocTypes(p1) == DocTypes(p2);
  }

  /**
   The root step gives two element mappings with the same entries the
   same entries, whatever order they list them in.
   */
  lemma EnsureRootIgnoresListing(profile: Dict<Value>, a: Dict<Value>, b: Dict<Value>)
    requires forall k :: Get(a, k) == Get(b, k)
    requires EnsureRoot(profile, a).Some?
    ensures EnsureRoot(profile, b).Some?
    ensures forall k :: Get(EnsureRoot(profile, a).value, k) == Get(EnsureRoot(profile, b).value, k)
  {
    var cands := DocTypes(profile).value;
    assert forall x :: x in cands ==> (x in Keys(a) <==> x in Keys(b)) by {
      forall x | x in cands ensures x in Keys(a) <==> x in Keys(b) {
        assert Get(a, x).Some? <==> Get(b, x).Some?;
      }
    }
    PresentInSame(cands, a, b);
    var ra, rb := EnsureRoot(profile, a).value, EnsureRoot(profile, b).value;
    RootOfEnsureRoot(profile, a);
    RootOfEnsureRoot(profile, b);
    assert Get(ra, Root) == Get(rb, Root) by {
      assert Get(a, Root) == Get(b, Root);
    }
    forall k | k != Root ensures Get(ra, k) == Get(rb, k) {
      assert Get(ra, k) == Get(a, k) && Get(rb, k) == Get(b, k);
    }
  }

  /** The root entry the root step writes. */
  lemma RootOfEnsureRoot(profile: Dict<Value>, els: Dict<Value>)
    requires EnsureRoot(profile, els).Some?
    ensures Get(EnsureRoot(profile, els).value, Root) ==
      Some(RootValue(RootEntry(Get(els, Root), PresentIn(DocTypes(profile).value, els))))
  {
  }

  /** A document type named `akomaNtoso` with no entry of its own. */
  const SelfListedProfile: Dict<Value> := [Entry("documentTypes", List([Str(Root)]))]

  /** With that profile a second run lists the root under itself, which the first did not. */
  lemma SelfListedRootNotIdempotent()
    ensures EnsureRoot(SelfListedProfile, []).Some?
    ensures EnsureRoot(SelfListedProfile, EnsureRoot(SelfListedProfile, []).value) != EnsureRoot(SelfListedProfile, [])
  {
    var cands := DocTypes(SelfListedProfile).value;
    assert Root in cands;
    var r := EnsureRoot(SelfListedProfile, []).value;
    assert Root !in Keys(ChildMapOf(Get(r, Root).value)) by {
      assert PresentIn(cands, []) == [];
      assert r == SetRootFirst([], Null);
    }
    var r2 := EnsureRoot(SelfListedProfile, r).value;
    assert Root in Keys(ChildMapOf(Get(r2, Root).value));
  }
}
