/**
 `expand_element` (`models/cascade.py`): add an element and, recursively,
 every element its required children name, with their required
 attributes, the requested identity attributes and the required children
 listed; make sure `akomaNtoso` is present with the document types as its
 children; put the elements into canonical order and dump the document.
 */
module CascadeExpand {
  import opened Wrappers
  import opened Dicts
  import opened Yaml
  import opened ChoiceParser
  import opened Schema
  import opened CascadeKit
  import opened CascadeOrder
  import opened CascadeRoot

  /** The identity attributes that can be added automatically. */
  const IdentityNames: seq<string> := ["eId", "wId", "GUID"]

  /** The keyword arguments of `expand_element`. */
  datatype ExpandOptions = ExpandOptions(addEid: bool, addWid: bool, addGuid: bool, idRequired: bool)

  /** `_build_auto_id_list`: the requested identity attributes, in the order eId, wId, GUID. */
  function AutoIdList(o: ExpandOptions): (r: seq<string>)
    ensures forall x :: x in r <==> (x == "eId" && o.addEid) || (x == "wId" && o.addWid) || (x == "GUID" && o.addGuid)
    ensures forall x :: x in r ==> x in IdentityNames
  {
    (if o.addEid then ["eId"] else []) + (if o.addWid then ["wId"] else []) + (if o.addGuid then ["GUID"] else [])
  }

  /** The names of the declared attributes. */
  function AttrNameSet(attrs: seq<AttrInfo>): (r: set<string>)
    ensures forall a :: a in attrs ==> a.name in r
  {
    if attrs == [] then {} else {attrs[0].name} + AttrNameSet(attrs[1..])
  }

  /** The names of the required attributes: `req_names`. */
  function RequiredAttrNames(attrs: seq<AttrInfo>): (r: set<string>)
    ensures forall a :: a in attrs && a.required ==> a.name in r
    ensures r <= AttrNameSet(attrs)
  {
    if attrs == [] then {} else (if attrs[0].required then {attrs[0].name} else {}) + RequiredAttrNames(attrs[1..])
  }

  /** The names of the required children. */
  function RequiredChildNames(cs: seq<ChildInfo>): (r: set<string>)
    ensures forall c :: c in cs && c.required ==> c.name in r
  {
    if cs == [] then {} else (if cs[0].required then {cs[0].name} else {}) + RequiredChildNames(cs[1..])
  }

  /** `_id_attrs_for_elem`: the requested identity attributes the element declares, in request order. */
  function IdAttrsFor(auto: seq<string>, info: ElementInfo): (r: seq<string>)
    ensures forall x :: x in r <==> x in auto && x in AttrNameSet(info.attributes)
  {
    if auto == [] then []
    else
      assert forall x :: x in auto <==> x == auto[0] || x in auto[1..];
      (if auto[0] in AttrNameSet(info.attributes) then [auto[0]] else []) + IdAttrsFor(auto[1..], info)
  }

  /** `next((a for a in attrs if a.name == name), None)`: the first attribute of that name. */
  function FirstAttr(attrs: seq<AttrInfo>, name: string): (r: Option<AttrInfo>)
    ensures r.None? <==> name !in AttrNameSet(attrs)
    ensures r.Some? ==> r.value in attrs && r.value.name == name
  {
    if attrs == [] then None
    else if attrs[0].name == name then Some(attrs[0])
    else FirstAttr(attrs[1..], name)
  }

  function StrList(xs: seq<string>): (r: seq<Value>)
    ensures |r| == |xs| && forall i :: 0 <= i < |xs| ==> r[i] == Str(xs[i])
  {
    seq(|xs|, i requires 0 <= i < |xs| => Str(xs[i]))
  }

  /** The `values` list an attribute entry copies: the attribute's enumeration, when it has one. */
  function EnumValues(a: AttrInfo): Option<Value>
  {
    if a.enumValues != [] then Some(List(StrList(a.enumValues))) else None
  }

  /** `{"required": req}`, with `"values"` listing the enumeration when the attribute has one. */
  function AttrEntry(a: AttrInfo, req: bool): (r: Value)
    ensures r.Map? && Yaml.Field(r, "required") == Some(Bool(req))
    ensures Yaml.Field(r, "values") == EnumValues(a)
  {
    if a.enumValues != [] then
      GetPair("required", Bool(req), "values", List(StrList(a.enumValues)));
      Map([Entry("required", Bool(req)), Entry("values", List(StrList(a.enumValues)))])
    else
      GetSingle("required", Bool(req), "values");
      Map([Entry("required", Bool(req))])
  }

  /** The `required` flag of a new attribute entry: the option for a requested identity attribute, the XSD flag otherwise. */
  function RequiredFlag(a: AttrInfo, ids: seq<string>, o: ExpandOptions): bool
  {
    if a.name in IdentityNames && a.name in ids then o.idRequired else a.required
  }

  /** The requested identity attributes that are not already required, each looked up by name. */
  function ExtraIdAttrs(ids: seq<string>, reqNames: set<string>, attrs: seq<AttrInfo>): (r: seq<AttrInfo>)
    ensures forall a :: a in r ==> a in attrs && a.name in ids && a.name !in reqNames
    ensures forall x :: x in ids && x !in reqNames && x in AttrNameSet(attrs) ==> FirstAttr(attrs, x).value in r
  {
    if ids == [] then []
    else
      var head := if ids[0] !in reqNames && FirstAttr(attrs, ids[0]).Some? then [FirstAttr(attrs, ids[0]).value] else [];
      assert forall x :: x in ids <==> x == ids[0] || x in ids[1..];
      head + ExtraIdAttrs(ids[1..], reqNames, attrs)
  }

  /** `all_attrs_to_add`: the required attributes, then the extra identity attributes. */
  function AttrsToAdd(info: ElementInfo, ids: seq<string>): (r: seq<AttrInfo>)
    ensures forall a :: a in r ==> a in info.attributes && (a.required || a.name in ids)
    ensures forall a :: a in info.attributes && a.required ==> a in r
    ensures forall x :: x in ids && x in AttrNameSet(info.attributes) ==> exists a :: a in r && a.name == x
  {
    var req := RequiredAttrs(info.attributes);
    var extra := ExtraIdAttrs(ids, RequiredAttrNames(info.attributes), info.attributes);
    forall x | x in ids && x in AttrNameSet(info.attributes) ensures exists a :: a in req + extra && a.name == x {
      if x in RequiredAttrNames(info.attributes) {
        RequiredAttrNamed(info.attributes, x);
      } else {
        assert FirstAttr(info.attributes, x).value in extra;
      }
    }
    req + extra
  }

  /** A required attribute name belongs to some required attribute. */
  lemma {:induction false} RequiredAttrNamed(attrs: seq<AttrInfo>, x: string)
    requires x in RequiredAttrNames(attrs)
    ensures exists a :: a in attrs && a.required && a.name == x
  {
    if !(attrs[0].required && attrs[0].name == x) {
      RequiredAttrNamed(attrs[1..], x);
      var a :| a in attrs[1..] && a.required && a.name == x;
      assert a in attrs;
    }
  }

  /** The `required` flag an attribute entry should carry, by name. */
  function NameFlag(k: string, ids: seq<string>, o: ExpandOptions): bool
  {
    if k in ids then o.idRequired else true
  }

  /** A declared attribute name belongs to some attribute. */
  lemma {:induction false} AttrNamed(attrs: seq<AttrInfo>, x: string)
    requires x in AttrNameSet(attrs)
    ensures exists a :: a in attrs && a.name == x
  {
    if attrs[0].name != x {
      AttrNamed(attrs[1..], x);
      var a :| a in attrs[1..] && a.name == x;
      assert a in attrs;
    }
  }

  /** Under each name of `adds`, `r` holds an entry listing the enumeration of an attribute of `adds` so named. */
  predicate ValuesListed(r: Dict<Value>, adds: seq<AttrInfo>)
  {
    forall k :: k in AttrNameSet(adds) ==>
      Get(r, k).Some? && exists a :: a in adds && a.name == k && Yaml.Field(Get(r, k).value, "values") == EnumValues(a)
  }

  /** Each attribute of `adds` gets the flag its name calls for. */
  predicate FlagsMatch(adds: seq<AttrInfo>, ids: seq<string>, o: ExpandOptions)
  {
    forall a :: a in adds ==> RequiredFlag(a, ids, o) == NameFlag(a.name, ids, o)
  }

  /** `for a in adds: d[a.name] = AttrEntry(a, flag)`. */
  function PutAttrs(d: Dict<Value>, adds: seq<AttrInfo>, ids: seq<string>, o: ExpandOptions): (r: Dict<Value>)
    ensures forall k :: k in Keys(r) <==> k in Keys(d) || k in AttrNameSet(adds)
    ensures forall k :: k !in AttrNameSet(adds) ==> Get(r, k) == Get(d, k)
    ensures FlagsMatch(adds, ids, o) ==>
      forall k :: k in AttrNameSet(adds) ==> Yaml.Field(Get(r, k).value, "required") == Some(Bool(NameFlag(k, ids, o)))
    ensures ValuesListed(r, adds)
    ensures DistinctKeys(d) ==> DistinctKeys(r)
    decreases |adds|
  {
    if adds == [] then d
    else
      var a := adds[0];
      assert forall b :: b in adds[1..] ==> b in adds;
      var d1 := Put(d, a.name, AttrEntry(a, RequiredFlag(a, ids, o)));
      var r := PutAttrs(d1, adds[1..], ids, o);
      assert FlagsMatch(adds, ids, o) ==>
        FlagsMatch(adds[1..], ids, o) && RequiredFlag(a, ids, o) == NameFlag(a.name, ids, o);
      forall k | k in AttrNameSet(adds)
        ensures Get(r, k).Some? && exists b :: b in adds && b.name == k && Yaml.Field(Get(r, k).value, "values") == EnumValues(b)
      {
        if k !in AttrNameSet(adds[1..]) {
          AttrNamed(adds, k);
          assert k == a.name && Get(r, k) == Get(d1, k);
        }
      }
      r
  }

  /**
   The `attributes` mapping of a new entry: every required attribute and
   every requested identity attribute the element declares; an identity
   attribute is marked with the option, any other with `required: true`.
   */
  function NewAttributes(info: ElementInfo, ids: seq<string>, o: ExpandOptions): (r: Dict<Value>)
    ensures DistinctKeys(r)
    ensures forall k :: k in RequiredAttrNames(info.attributes) ==> k in Keys(r)
    ensures forall k :: k in ids && k in AttrNameSet(info.attributes) ==> k in Keys(r)
    ensures forall k :: k in Keys(r) ==> k in RequiredAttrNames(info.attributes) || k in ids
    ensures (forall x :: x in ids ==> x in IdentityNames) ==>
      forall k :: k in Keys(r) ==> Yaml.Field(Get(r, k).value, "required") == Some(Bool(NameFlag(k, ids, o)))
    // an enumerated attribute's entry lists its enumeration under `values`, any other has none
    ensures ValuesCopied([], r, info.attributes)
  {
    AttrsToAddNames(info, ids);
    NewAttributesValues(info, ids, o);
    NewAttributesFlags(info, ids, o);
    PutAttrs([], AttrsToAdd(info, ids), ids, o)
  }

  /** With only identity names requested, every attribute entry carries the flag its name calls for. */
  lemma NewAttributesFlags(info: ElementInfo, ids: seq<string>, o: ExpandOptions)
    ensures var r := PutAttrs([], AttrsToAdd(info, ids), ids, o);
      (forall x :: x in ids ==> x in IdentityNames) ==>
        forall k :: k in Keys(r) ==> Yaml.Field(Get(r, k).value, "required") == Some(Bool(NameFlag(k, ids, o)))
  {
    if forall x :: x in ids ==> x in IdentityNames {
      PutAttrsFlags([], AttrsToAdd(info, ids), ids, o);
    }
  }

  /** Attributes that are required or requested identity attributes get the flag their names call for. */
  lemma PutAttrsFlags(d: Dict<Value>, adds: seq<AttrInfo>, ids: seq<string>, o: ExpandOptions)
    requires |d| == 0
    requires forall a :: a in adds ==> a.required || a.name in ids
    requires forall x :: x in ids ==> x in IdentityNames
    ensures var r := PutAttrs(d, adds, ids, o);
      forall k :: k in Keys(r) ==> Yaml.Field(Get(r, k).value, "required") == Some(Bool(NameFlag(k, ids, o)))
  {
    FlagsAgree(adds, ids, o);
    PutAttrsOnlyAdds(d, adds, ids, o);
  }

  /** For a required or requested identity attribute, the flag it gets is the one its name calls for. */
  lemma FlagsAgree(adds: seq<AttrInfo>, ids: seq<string>, o: ExpandOptions)
    requires forall a :: a in adds ==> a.required || a.name in ids
    requires forall x :: x in ids ==> x in IdentityNames
    ensures FlagsMatch(adds, ids, o)
  {
    forall a | a in adds ensures RequiredFlag(a, ids, o) == NameFlag(a.name, ids, o) {
      if a.name in ids {
        assert a.name in IdentityNames;
      }
    }
  }

  /** Starting from nothing, the loop's keys are exactly the names it adds. */
  lemma PutAttrsOnlyAdds(d: Dict<Value>, adds: seq<AttrInfo>, ids: seq<string>, o: ExpandOptions)
    requires |d| == 0
    ensures forall k :: k in Keys(PutAttrs(d, adds, ids, o)) ==> k in AttrNameSet(adds)
  {
    forall k | k in Keys(PutAttrs(d, adds, ids, o)) ensures k in AttrNameSet(adds) {
      assert k !in Keys(d);
    }
  }

  /** The names `all_attrs_to_add` covers: the required ones and the declared requested ones, nothing else. */
  lemma AttrsToAddNames(info: ElementInfo, ids: seq<string>)
    ensures forall k :: k in RequiredAttrNames(info.attributes) ==> k in AttrNameSet(AttrsToAdd(info, ids))
    ensures forall k :: k in ids && k in AttrNameSet(info.attributes) ==> k in AttrNameSet(AttrsToAdd(info, ids))
    ensures forall k :: k in AttrNameSet(AttrsToAdd(info, ids)) ==> k in RequiredAttrNames(info.attributes) || k in ids
  {
    var adds := AttrsToAdd(info, ids);
    forall k | k in RequiredAttrNames(info.attributes) ensures k in AttrNameSet(adds) {
      RequiredAttrNamed(info.attributes, k);
    }
    forall k | k in ids && k in AttrNameSet(info.attributes) ensures k in AttrNameSet(adds) {
      var a :| a in adds && a.name == k;
    }
    forall k | k in AttrNameSet(adds) ensures k in RequiredAttrNames(info.attributes) || k in ids {
      AttrNamed(adds, k);
    }
  }

  /** Each attribute entry of a new entry copies the enumeration of a declared attribute of its name. */
  lemma NewAttributesValues(info: ElementInfo, ids: seq<string>, o: ExpandOptions)
    ensures ValuesCopied([], PutAttrs([], AttrsToAdd(info, ids), ids, o), info.attributes)
  {
    var adds := AttrsToAdd(info, ids);
    var none: Dict<Value> := [];
    var r := PutAttrs(none, adds, ids, o);
    forall k | k in Keys(r) && k !in Keys(none)
      ensures exists a :: a in info.attributes && a.name == k && Yaml.Field(Get(r, k).value, "values") == EnumValues(a)
    {
      var a :| a in adds && a.name == k && Yaml.Field(Get(r, k).value, "values") == EnumValues(a);
    }
  }

  // ---------------------------------------------------------------------
  // Children of a new entry.
  // ---------------------------------------------------------------------

  /** `d[c.name] = c.cardinality` for one child. */
  function PutCardinality(d: Dict<Value>, c: ChildInfo): (r: Dict<Value>)
    ensures Keys(r) == if c.name in Keys(d) then Keys(d) else Keys(d) + [c.name]
    ensures forall k :: k != c.name ==> Get(r, k) == Get(d, k)
    ensures DistinctKeys(d) ==> DistinctKeys(r)
  {
    Put(d, c.name, Str(ChildCardinality(c)))
  }

  /** `for c in cs: if c.required and (c.name in members) == inside: d[c.name] = c.cardinality`. */
  function PutRequired(d: Dict<Value>, cs: seq<ChildInfo>, members: set<string>, inside: bool): (r: Dict<Value>)
    ensures forall k :: k in Keys(r) <==> k in Keys(d) || (k in RequiredChildNames(cs) && (k in members) == inside)
    ensures DistinctKeys(d) ==> DistinctKeys(r)
    decreases |cs|
  {
    if cs == [] then d
    else
      var d1 := if cs[0].required && (cs[0].name in members) == inside then PutCardinality(d, cs[0]) else d;
      PutRequired(d1, cs[1..], members, inside)
  }

  /** The `choice` mapping: branch by branch, the required children in that branch. */
  function PutChoice(d: Dict<Value>, bs: seq<ChoiceBranch>, cs: seq<ChildInfo>): (r: Dict<Value>)
    ensures forall k :: k in Keys(r) <==> k in Keys(d) || (k in RequiredChildNames(cs) && k in UnionFrom(bs, 0))
    ensures DistinctKeys(d) ==> DistinctKeys(r)
    decreases |bs|
  {
    if bs == [] then d
    else
      assert forall k :: k in UnionFrom(bs, 0) <==> k in bs[0].elements || k in UnionFrom(bs[1..], 0) by {
        forall k ensures k in UnionFrom(bs, 0) ==> k in bs[0].elements || k in UnionFrom(bs[1..], 0) {
          if k in UnionFrom(bs, 0) && k !in bs[0].elements {
            var i :| 0 <= i < |bs| && k in bs[i].elements;
            assert bs[1..][i - 1] == bs[i];
          }
        }
        forall k | k in UnionFrom(bs[1..], 0) ensures k in UnionFrom(bs, 0) {
          var i :| 0 <= i < |bs[1..]| && k in bs[1..][i].elements;
          assert bs[i + 1] == bs[1..][i];
        }
      }
      PutChoice(PutRequired(d, cs, bs[0].elements, true), bs[1..], cs)
  }

  /** The first exclusive choice group of the element, if any. */
  function ExclusiveGroup(gs: seq<ChoiceGroup>): (r: Option<ChoiceGroup>)
    ensures r.None? <==> forall i :: 0 <= i < |gs| ==> !gs[i].exclusive
    ensures r.Some? ==> r.value in gs && r.value.exclusive
  {
    if gs == [] then None
    else if gs[0].exclusive then Some(gs[0])
    else
      assert forall i :: 1 <= i < |gs| ==> gs[i] == gs[1..][i - 1];
      ExclusiveGroup(gs[1..])
  }

  /** The keys of the `choice` mapping of a children mapping, if it has one. */
  function ChoiceKeys(cd: Dict<Value>): seq<string>
  {
    var ch: Option<Value> := Get(cd, "choice");
    match ch
    case Some(Map(m)) => Keys(m)
    case _ => []
  }

  /** `k` is a key of the children mapping `cd` or of its `choice` mapping. */
  predicate Listed(cd: Dict<Value>, k: string)
  {
    k in Keys(cd) || k in ChoiceKeys(cd)
  }

  /**
   `child_dict` of a new entry: the required children outside the first
   exclusive group, and a `choice` mapping with the required children
   inside it.
   */
  function NewChildren(info: ElementInfo, gs: seq<ChoiceGroup>): (r: Dict<Value>)
    ensures DistinctKeys(r)
    ensures ExclusiveGroup(gs).None? ==> forall k :: k in Keys(r) <==> k in RequiredChildNames(info.children)
    ensures forall k :: k in RequiredChildNames(info.children) ==> Listed(r, k)
  {
    match ExclusiveGroup(gs)
    case None =>
      PutRequired([], info.children, {}, false)
    case Some(g) =>
      var members := AllElements(g);
      var direct := PutRequired([], info.children, members, false);
      var choice := PutChoice([], g.branches, info.children);
      if choice == [] then
        forall k | k in RequiredChildNames(info.children) ensures Listed(direct, k) {
          assert k in members ==> k in Keys(choice);
        }
        direct
      else
        var r := Put(direct, "choice", Map(choice));
        assert ChoiceKeys(r) == Keys(choice);
        r
  }

  /**
   The entry `_recursive_add` creates for a new element: `attributes` and
   `children` when there is something to put in them, `None` when there
   is neither.
   */
  function NewEntry(info: ElementInfo, gs: seq<ChoiceGroup>, ids: seq<string>, o: ExpandOptions): (r: Value)
    ensures r.Null? <==> NewAttributes(info, ids, o) == [] && NewChildren(info, gs) == []
    ensures r.Map? ==> DistinctKeys(r.entries)
    ensures Yaml.Field(r, "attributes") == if NewAttributes(info, ids, o) == [] then None else Some(Map(NewAttributes(info, ids, o)))
    ensures Yaml.Field(r, "children") == if NewChildren(info, gs) == [] then None else Some(Map(NewChildren(info, gs)))
  {
    EntryOf(NewAttributes(info, ids, o), NewChildren(info, gs))
  }

  /** `entry = {}; entry["attributes"] = attrs; entry["children"] = children`, empty parts left out, and `None` for an empty entry. */
  function EntryOf(attrs: Dict<Value>, children: Dict<Value>): (r: Value)
    ensures r.Null? || r.Map?
    ensures r.Null? <==> attrs == [] && children == []
    ensures r.Map? ==> DistinctKeys(r.entries)
    ensures r.Map? ==> forall k :: k in Keys(r.entries) ==> k == "attributes" || k == "children"
    ensures Yaml.Field(r, "attributes") == if attrs == [] then None else Some(Map(attrs))
    ensures Yaml.Field(r, "children") == if children == [] then None else Some(Map(children))
  {
    assert "attributes" != "children" by {
      assert "attributes"[0] != "children"[0];
    }
    if attrs == [] && children == [] then Null
    else if children == [] then
      GetSingle("attributes", Map(attrs), "children");
      Map([Entry("attributes", Map(attrs))])
    else if attrs == [] then
      GetSingle("children", Map(children), "attributes");
      Map([Entry("children", Map(children))])
    else
      GetPair("attributes", Map(attrs), "children", Map(children));
      Map([Entry("attributes", Map(attrs)), Entry("children", Map(children))])
  }

  // ---------------------------------------------------------------------
  // An element that is already listed.
  // ---------------------------------------------------------------------

  /** The names of the required attributes are the names `RequiredAttrs` keeps. */
  lemma RequiredAttrsNames(attrs: seq<AttrInfo>)
    ensures AttrNameSet(RequiredAttrs(attrs)) == RequiredAttrNames(attrs)
  {
    var req := RequiredAttrs(attrs);
    forall k | k in AttrNameSet(req) ensures k in RequiredAttrNames(attrs) {
      AttrNamed(req, k);
    }
    forall k | k in RequiredAttrNames(attrs) ensures k in AttrNameSet(req) {
      RequiredAttrNamed(attrs, k);
    }
  }

  /** `for attr in req_attrs: if attr.name not in d: d[attr.name] = {"required": True, ...}`. */
  function PutMissingRequired(d: Dict<Value>, req: seq<AttrInfo>): (r: Dict<Value>)
    ensures forall k :: k in Keys(r) <==> k in Keys(d) || k in AttrNameSet(req)
    ensures forall k :: k in Keys(d) ==> Get(r, k) == Get(d, k)
    ensures (forall a :: a in req ==> a.name in Keys(d)) ==> r == d
    ensures DistinctKeys(d) ==> DistinctKeys(r)
    decreases |req|
  {
    if req == [] then d
    else
      assert forall a :: a in req[1..] ==> a in req;
      if req[0].name in Keys(d) then
        PutMissingRequired(d, req[1..])
      else
        PutMissingRequired(Put(d, req[0].name, AttrEntry(req[0], true)), req[1..])
  }

  /** Every attribute the required loop adds is marked `required: true`. */
  lemma {:induction false} PutMissingRequiredMarks(d: Dict<Value>, req: seq<AttrInfo>)
    ensures forall k :: k in Keys(PutMissingRequired(d, req)) && k !in Keys(d) ==>
      Yaml.Field(Get(PutMissingRequired(d, req), k).value, "required") == Some(Bool(true))
    decreases |req|
  {
    if req != [] && req[0].name !in Keys(d) {
      var d1 := Put(d, req[0].name, AttrEntry(req[0], true));
      PutMissingRequiredMarks(d1, req[1..]);
    } else if req != [] {
      PutMissingRequiredMarks(d, req[1..]);
    }
  }

  /** Each key of `r` that `d` lacks lists under `values` the enumeration of an attribute of `req` so named. */
  predicate ValuesCopied(d: Dict<Value>, r: Dict<Value>, req: seq<AttrInfo>)
  {
    forall k :: k in Keys(r) && k !in Keys(d) ==>
      exists a :: a in req && a.name == k && Yaml.Field(Get(r, k).value, "values") == EnumValues(a)
  }

  /** Every attribute the required loop adds copies the enumeration of the attribute it was made from. */
  lemma {:induction false} PutMissingRequiredValues(d: Dict<Value>, req: seq<AttrInfo>)
    ensures ValuesCopied(d, PutMissingRequired(d, req), req)
    decreases |req|
  {
    if req != [] {
      var r := PutMissingRequired(d, req);
      var d1 := if req[0].name in Keys(d) then d else Put(d, req[0].name, AttrEntry(req[0], true));
      assert r == PutMissingRequired(d1, req[1..]);
      PutMissingRequiredValues(d1, req[1..]);
      forall k | k in Keys(r) && k !in Keys(d)
        ensures exists a :: a in req && a.name == k && Yaml.Field(Get(r, k).value, "values") == EnumValues(a)
      {
        if k in Keys(d1) {
          assert k == req[0].name && Get(r, k) == Get(d1, k);
        } else {
          var a :| a in req[1..] && a.name == k && Yaml.Field(Get(r, k).value, "values") == EnumValues(a);
          assert a in req;
        }
      }
    }
  }

  /** `for id_name in ids: if id_name not in d and the element declares it: d[id_name] = {"required": flag}`. */
  function PutMissingIds(d: Dict<Value>, ids: seq<string>, attrs: seq<AttrInfo>, flag: bool): (r: Dict<Value>)
    ensures forall k :: k in Keys(r) <==> k in Keys(d) || (k in ids && k in AttrNameSet(attrs))
    ensures forall k :: k in Keys(d) ==> Get(r, k) == Get(d, k)
    ensures forall k :: k in Keys(r) && k !in Keys(d) ==> Get(r, k) == Some(Map([Entry("required", Bool(flag))]))
    ensures (forall x :: x in ids && x in AttrNameSet(attrs) ==> x in Keys(d)) ==> r == d
    ensures DistinctKeys(d) ==> DistinctKeys(r)
    decreases |ids|
  {
    if ids == [] then d
    else
      assert forall x :: x in ids <==> x == ids[0] || x in ids[1..];
      if ids[0] !in Keys(d) && FirstAttr(attrs, ids[0]).Some? then
        var d1 := Put(d, ids[0], Map([Entry("required", Bool(flag))]));
        var r := PutMissingIds(d1, ids[1..], attrs, flag);
        assert Get(r, ids[0]) == Get(d1, ids[0]);
        r
      else
        PutMissingIds(d, ids[1..], attrs, flag)
  }

  /** Both loops over an existing `attributes` mapping. */
  function AddMissingAttrs(ad: Dict<Value>, info: ElementInfo, ids: seq<string>, o: ExpandOptions): (r: Dict<Value>)
    ensures forall k :: k in Keys(r) <==> k in Keys(ad) || k in RequiredAttrNames(info.attributes) || (k in ids && k in AttrNameSet(info.attributes))
    ensures forall k :: k in Keys(ad) ==> Get(r, k) == Get(ad, k)
    ensures AttrsComplete(ad, info, ids) ==> r == ad
    ensures DistinctKeys(ad) ==> DistinctKeys(r)
  {
    RequiredAttrsNames(info.attributes);
    forall a | a in RequiredAttrs(info.attributes) ensures a.name in RequiredAttrNames(info.attributes) { }
    PutMissingIds(PutMissingRequired(ad, RequiredAttrs(info.attributes)), ids, info.attributes, o.idRequired)
  }

  /** Every required attribute and every declared requested identity attribute is a key of `ad`. */
  predicate AttrsComplete(ad: Dict<Value>, info: ElementInfo, ids: seq<string>)
  {
    (forall k :: k in RequiredAttrNames(info.attributes) ==> k in Keys(ad)) &&
    (forall k :: k in ids && k in AttrNameSet(info.attributes) ==> k in Keys(ad))
  }

  /**
   The loops over an `attributes` value that is not a mapping get through
   only when every name they test is already `in` it: a missing name is
   assigned by key, which a list or a string refuses, and `None`, a number
   or a boolean refuses the test itself.
   */
  predicate AttrsProbeOk(v: Value, info: ElementInfo, ids: seq<string>)
  {
    (forall a :: a in RequiredAttrs(info.attributes) ==> PyIn(v, a.name) == Some(true)) &&
    (forall x :: x in ids ==> PyIn(v, x) == Some(true) || (PyIn(v, x) == Some(false) && x !in AttrNameSet(info.attributes)))
  }

  /**
   `existing.setdefault("attributes", {})` and both loops, when there are
   required attributes or requested identity attributes; `None` where the
   loops raise.
   */
  function EnsureAttributes(ed: Dict<Value>, info: ElementInfo, ids: seq<string>, o: ExpandOptions): (r: Option<Dict<Value>>)
    ensures r.None? ==> Get(ed, "attributes").Some? && !Get(ed, "attributes").value.Map?
    ensures r.Some? ==> forall k :: k in Keys(r.value) <==> k in Keys(ed) || (k == "attributes" && (RequiredAttrs(info.attributes) != [] || ids != []))
    ensures r.Some? ==> forall k :: k != "attributes" ==> Get(r.value, k) == Get(ed, k)
    ensures r.Some? ==> AttrsSettled(r.value, info, ids)
    ensures r.Some? ==> KeepsEntries(ed, r.value, "attributes") && KeepsOther(ed, r.value, "attributes")
    ensures DistinctKeys(ed) && r.Some? ==> DistinctKeys(r.value)
  {
    if RequiredAttrs(info.attributes) == [] && ids == [] then Some(ed)
    else
      var cur: Option<Value> := Get(ed, "attributes");
      match cur
      case None => Some(Put(ed, "attributes", Map(AddMissingAttrs([], info, ids, o))))
      case Some(Map(ad)) => Some(Put(ed, "attributes", Map(AddMissingAttrs(ad, info, ids, o))))
      case Some(v) => if AttrsProbeOk(v, info, ids) then Some(ed) else None
  }

  /** When `before` holds a mapping under `f`, `after` holds a mapping there too, keeping each of its entries. */
  predicate KeepsEntries(before: Dict<Value>, after: Dict<Value>, f: string)
  {
    var b: Option<Value> := Get(before, f);
    var a: Option<Value> := Get(after, f);
    b.Some? && b.value.Map? ==>
      a.Some? && a.value.Map? && forall x :: x in Keys(b.value.entries) ==> Get(a.value.entries, x) == Get(b.value.entries, x)
  }

  /** When `before` holds under `f` a value that is not a mapping, `after` holds the same value. */
  predicate KeepsOther(before: Dict<Value>, after: Dict<Value>, f: string)
  {
    var b: Option<Value> := Get(before, f);
    b.Some? && !b.value.Map? ==> Get(after, f) == b
  }

  /** `for c in req_children: if c.name not in d: d[c.name] = c.cardinality`, leaving out the names in `skip`. */
  function PutMissingChildren(d: Dict<Value>, cs: seq<ChildInfo>, skip: seq<string>): (r: Dict<Value>)
    ensures forall k :: k in Keys(r) <==> k in Keys(d) || (k in RequiredChildNames(cs) && k !in skip)
    ensures forall k :: k in Keys(d) ==> Get(r, k) == Get(d, k)
    ensures forall k :: k in Keys(r) && k !in Keys(d) ==> Get(r, k).value.Str?
    ensures (forall k :: k in RequiredChildNames(cs) ==> k in Keys(d) || k in skip) ==> r == d
    ensures DistinctKeys(d) ==> DistinctKeys(r)
    decreases |cs|
  {
    if cs == [] then d
    else
      var d1 := if cs[0].required && cs[0].name !in Keys(d) && cs[0].name !in skip then PutCardinality(d, cs[0]) else d;
      PutMissingChildren(d1, cs[1..], skip)
  }

  /**
   The attribute loops have nothing left to do: there is nothing to add,
   or `attributes` is a mapping holding every name they add, or a value
   they get through unchanged.
   */
  predicate AttrsSettled(ed: Dict<Value>, info: ElementInfo, ids: seq<string>)
  {
    var cur: Option<Value> := Get(ed, "attributes");
    RequiredAttrs(info.attributes) != [] || ids != [] ==>
      match cur
      case None => false
      case Some(Map(ad)) => AttrsComplete(ad, info, ids)
      case Some(v) => AttrsProbeOk(v, info, ids)
  }

  /** An entry whose attributes are settled comes out of the attribute loops unchanged. */
  lemma EnsureAttributesSettled(ed: Dict<Value>, info: ElementInfo, ids: seq<string>, o: ExpandOptions)
    requires AttrsSettled(ed, info, ids)
    ensures EnsureAttributes(ed, info, ids, o) == Some(ed)
  {
    if RequiredAttrs(info.attributes) != [] || ids != [] {
      var cur: Option<Value> := Get(ed, "attributes");
      match cur
      case Some(Map(ad)) => PutSame(ed, "attributes", Map(ad));
      case _ =>
    }
  }

  /** An entry whose children are settled comes out of the children loop unchanged. */
  lemma EnsureChildrenSettled(ed: Dict<Value>, info: ElementInfo, keepChoice: bool)
    requires ChildrenListed(ChildrenMapOf(ed), info.children, keepChoice)
    ensures EnsureChildren(ed, info, keepChoice) == ed
  {
    RequiredChildrenEmpty(info.children);
    var cd := ChildrenMapOf(ed);
    if RequiredChildren(info.children) != [] {
      var k :| k in RequiredChildNames(info.children);
      assert cd != [];
      PutSame(ed, "children", Map(cd));
    }
  }

  /** `existing.get("children", {})` when it is a mapping, an empty mapping otherwise. */
  function ChildrenMapOf(ed: Dict<Value>): (r: Dict<Value>)
    ensures Get(ed, "children").Some? && Get(ed, "children").value.Map? ==> Get(ed, "children") == Some(Map(r))
    ensures !(Get(ed, "children").Some? && Get(ed, "children").value.Map?) ==> r == []
  {
    var cur: Option<Value> := Get(ed, "children");
    match cur
    case Some(Map(cd)) => cd
    case _ => []
  }

  /** Every required child of `cs` is a key of `cd` or, with `keepChoice`, of its `choice` mapping. */
  predicate ChildrenListed(cd: Dict<Value>, cs: seq<ChildInfo>, keepChoice: bool)
  {
    forall k :: k in RequiredChildNames(cs) ==> k in Keys(cd) || (keepChoice && k in ChoiceKeys(cd))
  }

  /** The loop itself: the required children not yet listed, added to `cd`. */
  function FillChildren(cd: Dict<Value>, cs: seq<ChildInfo>, keepChoice: bool): (r: Dict<Value>)
    ensures ChildrenListed(r, cs, keepChoice)
    ensures forall k :: k in Keys(cd) ==> Get(r, k) == Get(cd, k)
    ensures ChildrenListed(cd, cs, keepChoice) ==> r == cd
    ensures DistinctKeys(cd) ==> DistinctKeys(r)
  {
    var r := PutMissingChildren(cd, cs, if keepChoice then ChoiceKeys(cd) else []);
    assert ChoiceKeys(cd) != [] ==> "choice" in Keys(cd) && ChoiceKeys(r) == ChoiceKeys(cd);
    r
  }

  /**
   The required-children loop of an existing entry. With `keepChoice` the
   children already listed under `choice` count as present.
   */
  function EnsureChildren(ed: Dict<Value>, info: ElementInfo, keepChoice: bool): (r: Dict<Value>)
    ensures forall k :: k in Keys(r) <==> k in Keys(ed) || (k == "children" && RequiredChildNames(info.children) != {})
    ensures forall k :: k != "children" ==> Get(r, k) == Get(ed, k)
    ensures ChildrenListed(ChildrenMapOf(r), info.children, keepChoice)
    ensures KeepsEntries(ed, r, "children")
    ensures DistinctKeys(ed) ==> DistinctKeys(r)
  {
    RequiredChildrenEmpty(info.children);
    if RequiredChildren(info.children) == [] then
      ed
    else
      var cd1 := FillChildren(ChildrenMapOf(ed), info.children, keepChoice);
      if cd1 == [] then
        ed
      else
        Put(ed, "children", Map(cd1))
  }

  /** `req_children` is empty exactly when no child is required. */
  lemma {:induction false} RequiredChildrenEmpty(cs: seq<ChildInfo>)
    ensures RequiredChildren(cs) == [] <==> RequiredChildNames(cs) == {}
  {
    if cs != [] {
      RequiredChildrenEmpty(cs[1..]);
      if cs[0].required {
        assert cs[0] in RequiredChildren(cs);
      } else {
        assert forall c :: c in RequiredChildren(cs) <==> c in RequiredChildren(cs[1..]);
      }
    }
  }

  /**
   The existing-entry branch of `_recursive_add`: a `None` entry becomes an
   empty mapping when there is something to add, a mapping gets its
   missing required attributes, identity attributes and required children,
   and any other value is left alone. `None` where the attribute loops
   raise. With `keepChoice` a required child already listed under
   `choice` is not listed again.
   */
  function UpdateEntryBy(existing: Value, info: ElementInfo, ids: seq<string>, o: ExpandOptions, keepChoice: bool): (r: Option<Value>)
    ensures r.None? ==> existing.Map? && Get(existing.entries, "attributes").Some? && !Get(existing.entries, "attributes").value.Map?
    ensures r.Some? && !existing.Map? && !existing.Null? ==> r.value == existing
    ensures r.Some? && existing.Null? ==> (r.value.Null? <==> RequiredChildNames(info.children) == {} && RequiredAttrNames(info.attributes) == {} && ids == [])
    ensures r.Some? && existing.Map? ==> r.value.Map? && forall k :: k != "attributes" && k != "children" ==> Get(r.value.entries, k) == Get(existing.entries, k)
    ensures r.Some? && r.value.Map? && RequiredChildNames(info.children) != {} ==> Yaml.Field(r.value, "children").Some?
    ensures r.Some? && existing.Map? && DistinctKeys(existing.entries) ==> DistinctKeys(r.value.entries)
    // the entries an existing `attributes` or `children` mapping holds are kept: the loops only add
    ensures r.Some? && existing.Map? ==>
      && KeepsEntries(existing.entries, r.value.entries, "attributes")
      && KeepsOther(existing.entries, r.value.entries, "attributes")
      && KeepsEntries(existing.entries, r.value.entries, "children")
  {
    RequiredChildrenEmpty(info.children);
    RequiredAttrsEmpty(info.attributes);
    if existing.Map? then
      match UpdateMap(existing.entries, info, ids, o, keepChoice)
      case None => None
      case Some(ed) => Some(Map(ed))
    else if existing.Null? && (RequiredChildren(info.children) != [] || RequiredAttrs(info.attributes) != [] || ids != []) then
      match UpdateMap([], info, ids, o, keepChoice)
      case None => None
      case Some(ed) => Some(Map(ed))
    else
      Some(existing)
  }

  /** The attribute and children loops on an entry that is a mapping. */
  function UpdateMap(ed: Dict<Value>, info: ElementInfo, ids: seq<string>, o: ExpandOptions, keepChoice: bool): (r: Option<Dict<Value>>)
    ensures r.None? ==> Get(ed, "attributes").Some? && !Get(ed, "attributes").value.Map?
    ensures r.Some? ==> forall k :: k != "attributes" && k != "children" ==> Get(r.value, k) == Get(ed, k)
    ensures r.Some? && RequiredChildNames(info.children) != {} ==> Get(r.value, "children").Some?
    ensures r.Some? && DistinctKeys(ed) ==> DistinctKeys(r.value)
    ensures r.Some? ==> AttrsSettled(r.value, info, ids) && ChildrenListed(ChildrenMapOf(r.value), info.children, keepChoice)
    ensures r.Some? ==> KeepsEntries(ed, r.value, "attributes") && KeepsOther(ed, r.value, "attributes")
    ensures r.Some? ==> KeepsEntries(ed, r.value, "children")
  {
    match EnsureAttributes(ed, info, ids, o)
    case None => None
    case Some(ed1) =>
      var r := EnsureChildren(ed1, info, keepChoice);
      AttributesCarried(ed, ed1, r, info, ids);
      ChildrenCarried(ed, ed1, r);
      Some(r)
  }

  /** What the attribute loop established survives a step that leaves `attributes` alone. */
  lemma AttributesCarried(ed: Dict<Value>, ed1: Dict<Value>, r: Dict<Value>, info: ElementInfo, ids: seq<string>)
    requires Get(r, "attributes") == Get(ed1, "attributes")
    requires AttrsSettled(ed1, info, ids) && KeepsEntries(ed, ed1, "attributes") && KeepsOther(ed, ed1, "attributes")
    ensures AttrsSettled(r, info, ids) && KeepsEntries(ed, r, "attributes") && KeepsOther(ed, r, "attributes")
  {
  }

  /** The children loop keeps what a step that left `children` alone had. */
  lemma ChildrenCarried(ed: Dict<Value>, ed1: Dict<Value>, r: Dict<Value>)
    requires Get(ed1, "children") == Get(ed, "children") && KeepsEntries(ed1, r, "children")
    ensures KeepsEntries(ed, r, "children")
  {
  }

  /** The existing-entry branch as `_recursive_add` writes it: children under `choice` are not looked at. */
  function UpdateEntryAsWritten(existing: Value, info: ElementInfo, ids: seq<string>, o: ExpandOptions): Option<Value>
  {
    UpdateEntryBy(existing, info, ids, o, false)
  }

  /** The existing-entry branch, counting a required child listed under `choice` as present. */
  function UpdateEntry(existing: Value, info: ElementInfo, ids: seq<string>, o: ExpandOptions): Option<Value>
  {
    UpdateEntryBy(existing, info, ids, o, true)
  }

  /** `req_attrs` is empty exactly when no attribute is required. */
  lemma {:induction false} RequiredAttrsEmpty(attrs: seq<AttrInfo>)
    ensures RequiredAttrs(attrs) == [] <==> RequiredAttrNames(attrs) == {}
  {
    RequiredAttrsNames(attrs);
    if RequiredAttrs(attrs) != [] {
      assert RequiredAttrs(attrs)[0].name in AttrNameSet(RequiredAttrs(attrs));
    }
  }

  /** An entry the loops have nothing left to do for comes out unchanged. */
  lemma UpdateMapSettled(ed: Dict<Value>, info: ElementInfo, ids: seq<string>, o: ExpandOptions, keepChoice: bool)
    requires AttrsSettled(ed, info, ids)
    requires ChildrenListed(ChildrenMapOf(ed), info.children, keepChoice)
    ensures UpdateMap(ed, info, ids, o, keepChoice) == Some(ed)
  {
    EnsureAttributesSettled(ed, info, ids, o);
    EnsureChildrenSettled(ed, info, keepChoice);
  }

  /** Updating an entry a second time changes nothing more, as written or corrected. */
  lemma UpdateEntryIdempotent(existing: Value, info: ElementInfo, ids: seq<string>, o: ExpandOptions, keepChoice: bool)
    requires UpdateEntryBy(existing, info, ids, o, keepChoice).Some?
    ensures var y := UpdateEntryBy(existing, info, ids, o, keepChoice).value;
      UpdateEntryBy(y, info, ids, o, keepChoice) == Some(y)
  {
    var y := UpdateEntryBy(existing, info, ids, o, keepChoice).value;
    if y.Map? {
      UpdateMapSettled(y.entries, info, ids, o, keepChoice);
    }
  }

  /** The attributes of a new entry are settled when every requested identity attribute is declared. */
  lemma NewEntryAttrsSettled(info: ElementInfo, gs: seq<ChoiceGroup>, ids: seq<string>, o: ExpandOptions)
    requires forall x :: x in ids ==> x in AttrNameSet(info.attributes)
    ensures NewEntry(info, gs, ids, o).Map? ==> AttrsSettled(NewEntry(info, gs, ids, o).entries, info, ids)
    ensures NewEntry(info, gs, ids, o).Null? ==> RequiredAttrs(info.attributes) == [] && ids == []
  {
    var attrs := NewAttributes(info, ids, o);
    RequiredAttrsEmpty(info.attributes);
    if RequiredAttrs(info.attributes) != [] || ids != [] {
      if ids != [] {
        assert ids[0] in Keys(attrs);
      } else {
        var a := RequiredAttrs(info.attributes)[0];
        assert a.name in Keys(attrs);
      }
    }
  }

  /** The children of a new entry are listed, a member of the exclusive group under `choice`. */
  lemma NewEntryChildrenListed(info: ElementInfo, gs: seq<ChoiceGroup>, ids: seq<string>, o: ExpandOptions)
    ensures NewEntry(info, gs, ids, o).Map? ==> ChildrenListed(ChildrenMapOf(NewEntry(info, gs, ids, o).entries), info.children, true)
    ensures NewEntry(info, gs, ids, o).Null? ==> RequiredChildren(info.children) == []
  {
    if NewChildren(info, gs) == [] {
      NoNewChildren(info, gs);
    } else if NewEntry(info, gs, ids, o).Map? {
      NewEntryChildren(info, gs, ids, o);
    }
  }

  /** Nothing in a new entry's children means no child is required. */
  lemma NoNewChildren(info: ElementInfo, gs: seq<ChoiceGroup>)
    requires NewChildren(info, gs) == []
    ensures RequiredChildNames(info.children) == {} && RequiredChildren(info.children) == []
  {
    var empty: Dict<Value> := [];
    assert forall k :: !Listed(empty, k);
    assert RequiredChildNames(info.children) == {};
    RequiredChildrenEmpty(info.children);
  }

  /** A new entry with children holds the children mapping `NewChildren` builds. */
  lemma NewEntryChildren(info: ElementInfo, gs: seq<ChoiceGroup>, ids: seq<string>, o: ExpandOptions)
    requires NewEntry(info, gs, ids, o).Map? && NewChildren(info, gs) != []
    ensures ChildrenMapOf(NewEntry(info, gs, ids, o).entries) == NewChildren(info, gs)
  {
    assert Get(NewEntry(info, gs, ids, o).entries, "children") == Some(Map(NewChildren(info, gs)));
  }

  /**
   A second expand leaves a freshly created entry alone: every name the
   new entry needs is already there, a required child of the exclusive
   group under `choice`.
   */
  lemma UpdateEntryKeepsNewEntry(info: ElementInfo, gs: seq<ChoiceGroup>, ids: seq<string>, o: ExpandOptions)
    requires forall x :: x in ids ==> x in AttrNameSet(info.attributes)
    ensures UpdateEntry(NewEntry(info, gs, ids, o), info, ids, o) == Some(NewEntry(info, gs, ids, o))
  {
    var e := NewEntry(info, gs, ids, o);
    NewEntryAttrsSettled(info, gs, ids, o);
    NewEntryChildrenListed(info, gs, ids, o);
    if e.Map? {
      UpdateMapSettled(e.entries, info, ids, o, true);
    }
  }

  /** An element whose one child, required, is the single member of an exclusive choice. */
  const ChoiceOnlyChild: ChildInfo := ChildInfo("a", "a", true, false, "A", 1, Some(1), ["g"])
  const ChoiceOnlyInfo: ElementInfo := ElementInfo("e", "E", [], [], [ChoiceOnlyChild], "", "", [])
  const ChoiceOnlyGroups: seq<ChoiceGroup> := [ChoiceGroup("g", 1, Some(1), true, [ChoiceBranch("b", {"a"}, None)])]

  /**
   As written, the existing-entry branch changes any mapping entry that
   does not list a required child directly under `children`.
   */
  lemma AsWrittenRelists(e: Value, info: ElementInfo, ids: seq<string>, o: ExpandOptions, x: string)
    requires e.Map? && x in RequiredChildNames(info.children) && x !in Keys(ChildrenMapOf(e.entries))
    ensures UpdateEntryAsWritten(e, info, ids, o) != Some(e)
  {
    var m := UpdateMap(e.entries, info, ids, o, false);
    assert UpdateEntryAsWritten(e, info, ids, o) == if m.Some? then Some(Map(m.value)) else None;
    assert m.Some? ==> x in Keys(ChildrenMapOf(m.value));
  }

  /**
   So a second expand of an element created by the first lists the
   exclusive group's required child again, outside `choice`.
   */
  lemma ReexpandRelistsChoiceChild(o: ExpandOptions)
    ensures UpdateEntryAsWritten(NewEntry(ChoiceOnlyInfo, ChoiceOnlyGroups, [], o), ChoiceOnlyInfo, [], o) !=
      Some(NewEntry(ChoiceOnlyInfo, ChoiceOnlyGroups, [], o))
  {
    ChoiceOnlyEntry(o);
    AsWrittenRelists(NewEntry(ChoiceOnlyInfo, ChoiceOnlyGroups, [], o), ChoiceOnlyInfo, [], o, "a");
  }

  /** The new entry of that element is a mapping whose `children` do not list its child directly. */
  lemma ChoiceOnlyEntry(o: ExpandOptions)
    ensures NewEntry(ChoiceOnlyInfo, ChoiceOnlyGroups, [], o).Map?
    ensures "a" !in Keys(ChildrenMapOf(NewEntry(ChoiceOnlyInfo, ChoiceOnlyGroups, [], o).entries))
    ensures "a" in RequiredChildNames(ChoiceOnlyInfo.children)
  {
    var children := NewChildren(ChoiceOnlyInfo, ChoiceOnlyGroups);
    ChoiceOnlyListsUnderChoice();
    assert children != [];
    var e := NewEntry(ChoiceOnlyInfo, ChoiceOnlyGroups, [], o);
    assert Yaml.Field(e, "children") == Some(Map(children));
  }

  /**
   A new entry lists a required child of the first exclusive group under
   `choice` and nowhere else.
   */
  lemma ChoiceMemberOnlyUnderChoice(info: ElementInfo, gs: seq<ChoiceGroup>, x: string)
    requires ExclusiveGroup(gs).Some? && x in AllElements(ExclusiveGroup(gs).value)
    requires x in RequiredChildNames(info.children) && x != "choice"
    ensures x !in Keys(NewChildren(info, gs)) && x in ChoiceKeys(NewChildren(info, gs))
  {
    var g := ExclusiveGroup(gs).value;
    var direct := PutRequired([], info.children, AllElements(g), false);
    var choice := PutChoice([], g.branches, info.children);
    assert x in UnionFrom(g.branches, 0);
    assert x in Keys(choice);
    assert x !in Keys(direct);
    var r := Put(direct, "choice", Map(choice));
    assert NewChildren(info, gs) == r;
  }

  /** The new entry of that element lists its child under `choice` only. */
  lemma ChoiceOnlyListsUnderChoice()
    ensures "a" !in Keys(NewChildren(ChoiceOnlyInfo, ChoiceOnlyGroups)) && "a" in ChoiceKeys(NewChildren(ChoiceOnlyInfo, ChoiceOnlyGroups))
  {
    var gs := ChoiceOnlyGroups;
    assert ExclusiveGroup(gs) == Some(gs[0]);
    assert "a" in gs[0].branches[0].elements;
    assert "a" in RequiredChildNames(ChoiceOnlyInfo.children);
    ChoiceMemberOnlyUnderChoice(ChoiceOnlyInfo, gs, "a");
  }

  // ---------------------------------------------------------------------
  // The recursive walk.
  // ---------------------------------------------------------------------

  /**
   The value `elements[name]` ends up with: a new entry, or the existing
   one updated, as written (`keepChoice` false) or corrected (true).
   */
  function EntryFor(s: AknSchema, name: string, els: Dict<Value>, auto: seq<string>, o: ExpandOptions, keepChoice: bool): (r: Option<Value>)
    requires HasElement(s, name)
    ensures r.None? ==> var v := Get(els, name);
      v.Some? && v.value.Map? && Yaml.Field(v.value, "attributes").Some? && !Yaml.Field(v.value, "attributes").value.Map?
    ensures r.Some? && Get(els, name).Some? && Get(els, name).value.Map? ==>
      r.value.Map? && KeepsEntries(Get(els, name).value.entries, r.value.entries, "attributes") &&
      KeepsEntries(Get(els, name).value.entries, r.value.entries, "children")
  {
    var info := GetElementInfo(s, name).value;
    var ids := IdAttrsFor(auto, info);
    var cur: Option<Value> := Get(els, name);
    match cur
    case None => Some(NewEntry(info, GetChoiceGroups(s, name), ids, o))
    case Some(v) => UpdateEntryBy(v, info, ids, o, keepChoice)
  }

  /** What the walk does to one known element: the value its entry gets, or `None` to raise. */
  type Step = (string, Dict<Value>) -> Option<Value>

  /** The step of `_recursive_add`: `EntryFor` on the known elements. */
  function ExpandStep(s: AknSchema, auto: seq<string>, o: ExpandOptions, keepChoice: bool): Step
  {
    (n: string, e: Dict<Value>) => if HasElement(s, n) then EntryFor(s, n, e, auto, o, keepChoice) else None
  }

  /** The elements mapping and the visited set as `_recursive_add` leaves them. */
  datatype Walk = Walk(els: Dict<Value>, visited: set<string>)

  /**
   `_recursive_add`: nothing for a name already visited; an unknown name
   is only marked visited; a known one gets its entry and then each of its
   required children in turn.
   */
  function RecursiveAdd(s: AknSchema, name: string, els: Dict<Value>, vis: set<string>, step: Step): (r: Option<Walk>)
    ensures r.Some? ==> vis <= r.value.visited && name in r.value.visited
    decreases |SchemaNames(s) - vis|, 0, 0
  {
    if name in vis then Some(Walk(els, vis))
    else if !HasElement(s, name) then Some(Walk(els, vis + {name}))
    else
      var v :- step(name, els);
      var els1 := Put(els, name, v);
      var vis1 := vis + {name};
      assert |SchemaNames(s) - vis1| < |SchemaNames(s) - vis| by {
        assert SchemaNames(s) - vis == (SchemaNames(s) - vis1) + {name};
      }
      AddChildren(s, GetElementInfo(s, name).value.children, 0, els1, vis1, step)
  }

  /** The recursion over `info.children` from index `i`, required children only. */
  function AddChildren(s: AknSchema, cs: seq<ChildInfo>, i: nat, els: Dict<Value>, vis: set<string>, step: Step): (r: Option<Walk>)
    requires i <= |cs|
    ensures r.Some? ==> vis <= r.value.visited
    decreases |SchemaNames(s) - vis|, 1, |cs| - i
  {
    if i == |cs| then Some(Walk(els, vis))
    else if !cs[i].required then AddChildren(s, cs, i + 1, els, vis, step)
    else
      var w1 :- RecursiveAdd(s, cs[i].name, els, vis, step);
      SubsetCard(SchemaNames(s) - w1.visited, SchemaNames(s) - vis);
      AddChildren(s, cs, i + 1, w1.els, w1.visited, step)
  }

  // ---------------------------------------------------------------------
  // What the walk promises.
  // ---------------------------------------------------------------------

  /** Only the known names the walk newly visits can have their entries changed. */
  ghost predicate Framed(s: AknSchema, els: Dict<Value>, vis: set<string>, w: Walk)
  {
    forall k :: k in vis || k !in w.visited || !HasElement(s, k) ==> Get(w.els, k) == Get(els, k)
  }

  /** Every known name the walk newly visits has an entry. */
  ghost predicate Covered(s: AknSchema, vis: set<string>, w: Walk)
  {
    forall k :: k in w.visited && k !in vis && HasElement(s, k) ==> k in Keys(w.els)
  }

  lemma FramedTrans(s: AknSchema, els: Dict<Value>, vis: set<string>, w1: Walk, w2: Walk)
    requires vis <= w1.visited <= w2.visited
    requires Framed(s, els, vis, w1) && Framed(s, w1.els, w1.visited, w2)
    ensures Framed(s, els, vis, w2)
  {
  }

  lemma CoveredTrans(s: AknSchema, vis: set<string>, w1: Walk, w2: Walk)
    requires vis <= w1.visited <= w2.visited
    requires Covered(s, vis, w1) && Covered(s, w1.visited, w2) && Framed(s, w1.els, w1.visited, w2)
    ensures Covered(s, vis, w2)
  {
    forall k | k in w2.visited && k !in vis && HasElement(s, k) ensures k in Keys(w2.els) {
      if k in w1.visited {
        assert Get(w2.els, k) == Get(w1.els, k);
      }
    }
  }

  lemma ClosedOverTrans(s: AknSchema, a: set<string>, b: set<string>, c: set<string>)
    requires a <= b <= c
    requires ClosedOver(s, a, b) && ClosedOver(s, b, c)
    ensures ClosedOver(s, a, c)
  {
    forall x | x in c - a && HasElement(s, x)
      ensures forall ch :: ch in GetElementInfo(s, x).value.children && ch.required ==> ch.name in c
    {
      if x !in b {
        assert x in c - b;
      }
    }
  }

  /** A newly visited element whose required children were visited extends a closed step by one. */
  lemma ClosedOverStep(s: AknSchema, vis: set<string>, name: string, after: set<string>)
    requires ClosedOver(s, vis + {name}, after)
    requires HasElement(s, name) ==> forall c :: c in GetElementInfo(s, name).value.children && c.required ==> c.name in after
    ensures ClosedOver(s, vis, after)
  {
    forall x | x in after - vis && HasElement(s, x)
      ensures forall c :: c in GetElementInfo(s, x).value.children && c.required ==> c.name in after
    {
      if x != name {
        assert x in after - (vis + {name});
      }
    }
  }

  /** The walk from `name` changes only the entries of the known names it newly visits. */
  lemma {:induction false} RecursiveAddFramed(s: AknSchema, name: string, els: Dict<Value>, vis: set<string>, step: Step, w: Walk)
    requires RecursiveAdd(s, name, els, vis, step) == Some(w)
    ensures Framed(s, els, vis, w)
    decreases |SchemaNames(s) - vis|, 0, 0
  {
    if name !in vis && HasElement(s, name) {
      var els1 := Put(els, name, step(name, els).value);
      var vis1 := vis + {name};
      assert |SchemaNames(s) - vis1| < |SchemaNames(s) - vis| by {
        assert SchemaNames(s) - vis == (SchemaNames(s) - vis1) + {name};
      }
      var cs := GetElementInfo(s, name).value.children;
      assert AddChildren(s, cs, 0, els1, vis1, step) == Some(w);
      AddChildrenFramed(s, cs, 0, els1, vis1, step, w);
      FramedTrans(s, els, vis, Walk(els1, vis1), w);
    }
  }

  lemma {:induction false} AddChildrenFramed(s: AknSchema, cs: seq<ChildInfo>, i: nat, els: Dict<Value>, vis: set<string>, step: Step, w: Walk)
    requires i <= |cs|
    requires AddChildren(s, cs, i, els, vis, step) == Some(w)
    ensures Framed(s, els, vis, w)
    decreases |SchemaNames(s) - vis|, 1, |cs| - i
  {
    if i < |cs| && !cs[i].required {
      AddChildrenFramed(s, cs, i + 1, els, vis, step, w);
    } else if i < |cs| {
      var w1 := RecursiveAdd(s, cs[i].name, els, vis, step).value;
      RecursiveAddFramed(s, cs[i].name, els, vis, step, w1);
      SubsetCard(SchemaNames(s) - w1.visited, SchemaNames(s) - vis);
      assert AddChildren(s, cs, i + 1, w1.els, w1.visited, step) == Some(w);
      AddChildrenFramed(s, cs, i + 1, w1.els, w1.visited, step, w);
      FramedTrans(s, els, vis, w1, w);
    }
  }

  /** The walk from `name` gives every known name it newly visits an entry. */
  lemma {:induction false} RecursiveAddCovered(s: AknSchema, name: string, els: Dict<Value>, vis: set<string>, step: Step, w: Walk)
    requires RecursiveAdd(s, name, els, vis, step) == Some(w)
    ensures Covered(s, vis, w)
    decreases |SchemaNames(s) - vis|, 0, 0
  {
    if name !in vis && HasElement(s, name) {
      var els1 := Put(els, name, step(name, els).value);
      var vis1 := vis + {name};
      assert |SchemaNames(s) - vis1| < |SchemaNames(s) - vis| by {
        assert SchemaNames(s) - vis == (SchemaNames(s) - vis1) + {name};
      }
      var cs := GetElementInfo(s, name).value.children;
      assert AddChildren(s, cs, 0, els1, vis1, step) == Some(w);
      AddChildrenCovered(s, cs, 0, els1, vis1, step, w);
      AddChildrenFramed(s, cs, 0, els1, vis1, step, w);
      assert Get(w.els, name) == Get(els1, name);
      CoveredTrans(s, vis, Walk(els1, vis1), w);
    }
  }

  lemma {:induction false} AddChildrenCovered(s: AknSchema, cs: seq<ChildInfo>, i: nat, els: Dict<Value>, vis: set<string>, step: Step, w: Walk)
    requires i <= |cs|
    requires AddChildren(s, cs, i, els, vis, step) == Some(w)
    ensures Covered(s, vis, w)
    decreases |SchemaNames(s) - vis|, 1, |cs| - i
  {
    if i < |cs| && !cs[i].required {
      AddChildrenCovered(s, cs, i + 1, els, vis, step, w);
    } else if i < |cs| {
      var w1 := RecursiveAdd(s, cs[i].name, els, vis, step).value;
      RecursiveAddCovered(s, cs[i].name, els, vis, step, w1);
      SubsetCard(SchemaNames(s) - w1.visited, SchemaNames(s) - vis);
      assert AddChildren(s, cs, i + 1, w1.els, w1.visited, step) == Some(w);
      AddChildrenCovered(s, cs, i + 1, w1.els, w1.visited, step, w);
      AddChildrenFramed(s, cs, i + 1, w1.els, w1.visited, step, w);
      CoveredTrans(s, vis, w1, w);
    }
  }

  /** The names the walk from `name` newly visits are closed under required children. */
  lemma {:induction false} RecursiveAddClosed(s: AknSchema, name: string, els: Dict<Value>, vis: set<string>, step: Step, w: Walk)
    requires RecursiveAdd(s, name, els, vis, step) == Some(w)
    ensures ClosedOver(s, vis, w.visited)
    decreases |SchemaNames(s) - vis|, 0, 0
  {
    if name !in vis && HasElement(s, name) {
      var els1 := Put(els, name, step(name, els).value);
      var vis1 := vis + {name};
      assert |SchemaNames(s) - vis1| < |SchemaNames(s) - vis| by {
        assert SchemaNames(s) - vis == (SchemaNames(s) - vis1) + {name};
      }
      var cs := GetElementInfo(s, name).value.children;
      assert AddChildren(s, cs, 0, els1, vis1, step) == Some(w);
      AddChildrenClosed(s, cs, 0, els1, vis1, step, w);
      forall c | c in cs && c.required ensures c.name in w.visited {
        var j :| 0 <= j < |cs| && cs[j] == c;
      }
      ClosedOverStep(s, vis, name, w.visited);
    }
  }

  lemma {:induction false} AddChildrenClosed(s: AknSchema, cs: seq<ChildInfo>, i: nat, els: Dict<Value>, vis: set<string>, step: Step, w: Walk)
    requires i <= |cs|
    requires AddChildren(s, cs, i, els, vis, step) == Some(w)
    ensures ClosedOver(s, vis, w.visited)
    ensures forall j :: i <= j < |cs| && cs[j].required ==> cs[j].name in w.visited
    decreases |SchemaNames(s) - vis|, 1, |cs| - i
  {
    if i < |cs| && !cs[i].required {
      AddChildrenClosed(s, cs, i + 1, els, vis, step, w);
    } else if i < |cs| {
      var w1 := RecursiveAdd(s, cs[i].name, els, vis, step).value;
      RecursiveAddClosed(s, cs[i].name, els, vis, step, w1);
      SubsetCard(SchemaNames(s) - w1.visited, SchemaNames(s) - vis);
      assert AddChildren(s, cs, i + 1, w1.els, w1.visited, step) == Some(w);
      AddChildrenClosed(s, cs, i + 1, w1.els, w1.visited, step, w);
      ClosedOverTrans(s, vis, w1.visited, w.visited);
    }
  }

  /** The walk keeps every entry there was: the old names are either untouched or newly covered. */
  lemma WalkKeepsKeys(s: AknSchema, els: Dict<Value>, vis: set<string>, w: Walk)
    requires Framed(s, els, vis, w) && Covered(s, vis, w)
    ensures forall k :: k in Keys(els) ==> k in Keys(w.els)
  {
    forall k | k in Keys(els) ensures k in Keys(w.els) {
      if k in vis || k !in w.visited || !HasElement(s, k) {
        assert Get(w.els, k) == Get(els, k);
      }
    }
  }

  // ---------------------------------------------------------------------
  // What the walk adds: exactly the required-child chain.
  // ---------------------------------------------------------------------

  lemma ChainRefl(s: AknSchema, x: string)
    ensures OnRequiredChain(s, x, x)
  {
  }

  lemma ChainTrans(s: AknSchema, a: string, b: string, c: string)
    requires OnRequiredChain(s, a, b) && OnRequiredChain(s, b, c)
    ensures OnRequiredChain(s, a, c)
  {
  }

  /** A required child of a known element lies on that element's chain. */
  lemma ChildOnChain(s: AknSchema, p: string, c: ChildInfo)
    requires HasElement(s, p) && c in GetElementInfo(s, p).value.children && c.required
    ensures OnRequiredChain(s, p, c.name)
  {
  }

  /** A closed set holding `root` holds the whole chain of `root`. */
  lemma ClosedHoldsChain(s: AknSchema, vs: set<string>, root: string, x: string)
    requires root in vs && Closed(s, vs) && OnRequiredChain(s, root, x)
    ensures x in vs
  {
  }

  /** Every name the walk from `name` newly visits lies on the chain of `name`. */
  lemma {:induction false} RecursiveAddOnChain(s: AknSchema, name: string, els: Dict<Value>, vis: set<string>, step: Step, w: Walk)
    requires RecursiveAdd(s, name, els, vis, step) == Some(w)
    ensures forall k :: k in w.visited && k !in vis ==> OnRequiredChain(s, name, k)
    decreases |SchemaNames(s) - vis|, 0, 0
  {
    ChainRefl(s, name);
    if name !in vis && HasElement(s, name) {
      var els1 := Put(els, name, step(name, els).value);
      var vis1 := vis + {name};
      assert |SchemaNames(s) - vis1| < |SchemaNames(s) - vis| by {
        assert SchemaNames(s) - vis == (SchemaNames(s) - vis1) + {name};
      }
      var cs := GetElementInfo(s, name).value.children;
      assert AddChildren(s, cs, 0, els1, vis1, step) == Some(w);
      forall j | 0 <= j < |cs| && cs[j].required ensures OnRequiredChain(s, name, cs[j].name) {
        ChildOnChain(s, name, cs[j]);
      }
      AddChildrenOnChain(s, cs, 0, els1, vis1, step, w, name);
    }
  }

  lemma {:induction false} AddChildrenOnChain(s: AknSchema, cs: seq<ChildInfo>, i: nat, els: Dict<Value>, vis: set<string>, step: Step, w: Walk, root: string)
    requires i <= |cs|
    requires AddChildren(s, cs, i, els, vis, step) == Some(w)
    requires forall j :: i <= j < |cs| && cs[j].required ==> OnRequiredChain(s, root, cs[j].name)
    ensures forall k :: k in w.visited && k !in vis ==> OnRequiredChain(s, root, k)
    decreases |SchemaNames(s) - vis|, 1, |cs| - i
  {
    if i < |cs| && !cs[i].required {
      AddChildrenOnChain(s, cs, i + 1, els, vis, step, w, root);
    } else if i < |cs| {
      var w1 := RecursiveAdd(s, cs[i].name, els, vis, step).value;
      RecursiveAddOnChain(s, cs[i].name, els, vis, step, w1);
      SubsetCard(SchemaNames(s) - w1.visited, SchemaNames(s) - vis);
      assert AddChildren(s, cs, i + 1, w1.els, w1.visited, step) == Some(w);
      AddChildrenOnChain(s, cs, i + 1, w1.els, w1.visited, step, w, root);
      forall k | k in w1.visited && k !in vis ensures OnRequiredChain(s, root, k) {
        ChainTrans(s, root, cs[i].name, k);
      }
    }
  }

  /**
   The walk from `name` over a fresh visited set: the entries of the
   known elements on the chain of `name` are present, and no other entry
   is added or changed.
   */
  lemma WalkAddsChain(s: AknSchema, name: string, els: Dict<Value>, step: Step, w: Walk)
    requires RecursiveAdd(s, name, els, {}, step) == Some(w)
    ensures forall x :: HasElement(s, x) && OnRequiredChain(s, name, x) ==> x in Keys(w.els)
    ensures forall k :: !(HasElement(s, k) && OnRequiredChain(s, name, k)) ==> Get(w.els, k) == Get(els, k)
    ensures forall k :: k in Keys(els) ==> k in Keys(w.els)
  {
    RecursiveAddFramed(s, name, els, {}, step, w);
    RecursiveAddCovered(s, name, els, {}, step, w);
    RecursiveAddClosed(s, name, els, {}, step, w);
    RecursiveAddOnChain(s, name, els, {}, step, w);
    WalkKeepsKeys(s, els, {}, w);
    assert Closed(s, w.visited) by {
      assert w.visited - {} == w.visited;
    }
    forall x | HasElement(s, x) && OnRequiredChain(s, name, x) ensures x in Keys(w.els) {
      ClosedHoldsChain(s, w.visited, name, x);
    }
  }

  // ---------------------------------------------------------------------
  // `expand_element`.
  // ---------------------------------------------------------------------

  /** `profile.get("elements")` when it is a mapping, an empty mapping otherwise. */
  function ElementsOrEmpty(raw: Value): (r: Dict<Value>)
    ensures ElementsOf(raw).Some? ==> r == ElementsOf(raw).value
    ensures ElementsOf(raw).None? ==> r == []
  {
    if ElementsOf(raw).Some? then ElementsOf(raw).value else []
  }

  /**
   `expand_element`: the text unchanged when the document has no
   `profile` mapping; otherwise the walk from `name`, the root step and
   the canonical element order, and the document dumped. `Raised` where
   the walk or the root step raises. With `keepChoice` false this is the
   code as written; with `keepChoice` true an existing entry counts a
   required child listed under `choice` as present.
   */
  function ExpandElement(raw: Value, name: string, s: AknSchema, o: ExpandOptions, keepChoice: bool): (r: Outcome)
    ensures r.Unchanged? <==> ProfileOf(raw).None?
    ensures r.Dumped? ==> forall k :: k != "profile" ==> Yaml.Field(r.raw, k) == Yaml.Field(raw, k)
  {
    match ProfileOf(raw)
    case None => Unchanged
    case Some(profile) =>
      match RecursiveAdd(s, name, ElementsOrEmpty(raw), {}, ExpandStep(s, AutoIdList(o), o, keepChoice))
      case None => Raised
      case Some(w) =>
        match EnsureRoot(profile, w.els)
        case None => Raised
        case Some(els2) => Dumped(WithElements(raw, ApplyElementOrder(els2)))
  }

  /** The elements after an expand that did not raise. */
  lemma ExpandElementContents(raw: Value, name: string, s: AknSchema, o: ExpandOptions, keepChoice: bool)
    requires ExpandElement(raw, name, s, o, keepChoice).Dumped?
    ensures var els := ElementsOrEmpty(raw);
      ElementsOf(ExpandElement(raw, name, s, o, keepChoice).raw).Some? &&
      var out := ElementsOf(ExpandElement(raw, name, s, o, keepChoice).raw).value;
      && DistinctKeys(out)
      && Root in Keys(out)
      && (forall k :: k in Keys(els) ==> k in Keys(out))
      && (forall x :: HasElement(s, x) && OnRequiredChain(s, name, x) ==> x in Keys(out))
      && (forall k :: k != Root && !(HasElement(s, k) && OnRequiredChain(s, name, k)) ==> Get(out, k) == Get(els, k))
  {
    var els := ElementsOrEmpty(raw);
    var step := ExpandStep(s, AutoIdList(o), o, keepChoice);
    var w := RecursiveAdd(s, name, els, {}, step).value;
    WalkAddsChain(s, name, els, step, w);
    var profile := ProfileOf(raw).value;
    var els2 := EnsureRoot(profile, w.els).value;
    var out := ApplyElementOrder(els2);
    assert ExpandElement(raw, name, s, o, keepChoice) == Dumped(WithElements(raw, out));
    assert ElementsOf(ExpandElement(raw, name, s, o, keepChoice).raw) == Some(out);
    assert forall k :: k in Keys(out) <==> k in Keys(els2) by {
      forall k ensures k in Keys(out) <==> k in Keys(els2) {
        assert Get(out, k) == Get(els2, k);
      }
    }
  }

  /** An expand leaves the elements in the order `_compute_element_order` gives them. */
  lemma ExpandElementCanonical(raw: Value, name: string, s: AknSchema, o: ExpandOptions, keepChoice: bool)
    requires ExpandElement(raw, name, s, o, keepChoice).Dumped?
    ensures var out := ElementsOf(ExpandElement(raw, name, s, o, keepChoice).raw).value;
      Keys(out) == ComputeElementOrder(out)
  {
    var els := ElementsOrEmpty(raw);
    var w := RecursiveAdd(s, name, els, {}, ExpandStep(s, AutoIdList(o), o, keepChoice)).value;
    var els2 := EnsureRoot(ProfileOf(raw).value, w.els).value;
    var out := ApplyElementOrder(els2);
    assert ElementsOf(ExpandElement(raw, name, s, o, keepChoice).raw) == Some(out);
    ApplyElementOrderIdempotent(els2);
  }

  // ---------------------------------------------------------------------
  // A second expand changes nothing.
  // ---------------------------------------------------------------------

  /** A second update of the entry `v` of the known element `k` leaves it as it is. */
  ghost predicate Settled(s: AknSchema, auto: seq<string>, o: ExpandOptions, k: string, v: Value)
  {
    HasElement(s, k) ==>
      var info := GetElementInfo(s, k).value;
      UpdateEntry(v, info, IdAttrsFor(auto, info), o) == Some(v)
  }

  /** Every entry the corrected step writes is settled. */
  lemma ExpandStepSettles(s: AknSchema, auto: seq<string>, o: ExpandOptions, k: string, e: Dict<Value>)
    requires ExpandStep(s, auto, o, true)(k, e).Some?
    ensures Settled(s, auto, o, k, ExpandStep(s, auto, o, true)(k, e).value)
  {
    var info := GetElementInfo(s, k).value;
    var ids := IdAttrsFor(auto, info);
    match Get(e, k)
    case None =>
      UpdateEntryKeepsNewEntry(info, GetChoiceGroups(s, k), ids, o);
    case Some(v) =>
      UpdateEntryIdempotent(v, info, ids, o, true);
  }

  /** Every known name the walk newly visits ends with a settled entry. */
  ghost predicate SettledOver(s: AknSchema, auto: seq<string>, o: ExpandOptions, vis: set<string>, w: Walk)
  {
    forall k :: k in w.visited && k !in vis && HasElement(s, k) ==>
      Get(w.els, k).Some? && Settled(s, auto, o, k, Get(w.els, k).value)
  }

  lemma SettledTrans(s: AknSchema, auto: seq<string>, o: ExpandOptions, vis: set<string>, w1: Walk, w2: Walk)
    requires vis <= w1.visited <= w2.visited
    requires SettledOver(s, auto, o, vis, w1) && SettledOver(s, auto, o, w1.visited, w2)
    requires Framed(s, w1.els, w1.visited, w2)
    ensures SettledOver(s, auto, o, vis, w2)
  {
    forall k | k in w2.visited && k !in vis && HasElement(s, k)
      ensures Get(w2.els, k).Some? && Settled(s, auto, o, k, Get(w2.els, k).value)
    {
      if k in w1.visited {
        assert Get(w2.els, k) == Get(w1.els, k);
      }
    }
  }

  /** The corrected walk leaves every known name it newly visits with a settled entry. */
  lemma {:induction false} RecursiveAddSettles(s: AknSchema, auto: seq<string>, o: ExpandOptions, name: string, els: Dict<Value>, vis: set<string>, w: Walk)
    requires RecursiveAdd(s, name, els, vis, ExpandStep(s, auto, o, true)) == Some(w)
    ensures SettledOver(s, auto, o, vis, w)
    decreases |SchemaNames(s) - vis|, 0, 0
  {
    var step := ExpandStep(s, auto, o, true);
    if name !in vis && HasElement(s, name) {
      ExpandStepSettles(s, auto, o, name, els);
      var els1 := Put(els, name, step(name, els).value);
      var vis1 := vis + {name};
      assert |SchemaNames(s) - vis1| < |SchemaNames(s) - vis| by {
        assert SchemaNames(s) - vis == (SchemaNames(s) - vis1) + {name};
      }
      var cs := GetElementInfo(s, name).value.children;
      assert AddChildren(s, cs, 0, els1, vis1, step) == Some(w);
      AddChildrenSettles(s, auto, o, cs, 0, els1, vis1, w);
      AddChildrenFramed(s, cs, 0, els1, vis1, step, w);
      SettledTrans(s, auto, o, vis, Walk(els1, vis1), w);
    }
  }

  lemma {:induction false} AddChildrenSettles(s: AknSchema, auto: seq<string>, o: ExpandOptions, cs: seq<ChildInfo>, i: nat, els: Dict<Value>, vis: set<string>, w: Walk)
    requires i <= |cs|
    requires AddChildren(s, cs, i, els, vis, ExpandStep(s, auto, o, true)) == Some(w)
    ensures SettledOver(s, auto, o, vis, w)
    decreases |SchemaNames(s) - vis|, 1, |cs| - i
  {
    var step := ExpandStep(s, auto, o, true);
    if i < |cs| && !cs[i].required {
      AddChildrenSettles(s, auto, o, cs, i + 1, els, vis, w);
    } else if i < |cs| {
      var w1 := RecursiveAdd(s, cs[i].name, els, vis, step).value;
      RecursiveAddSettles(s, auto, o, cs[i].name, els, vis, w1);
      SubsetCard(SchemaNames(s) - w1.visited, SchemaNames(s) - vis);
      assert AddChildren(s, cs, i + 1, w1.els, w1.visited, step) == Some(w);
      AddChildrenSettles(s, auto, o, cs, i + 1, w1.els, w1.visited, w);
      AddChildrenFramed(s, cs, i + 1, w1.els, w1.visited, step, w);
      SettledTrans(s, auto, o, vis, w1, w);
    }
  }

  /** The step gives every known element on the chain of `root` the entry it already has. */
  ghost predicate StepKeeps(s: AknSchema, root: string, els: Dict<Value>, step: Step)
  {
    forall x :: HasElement(s, x) && OnRequiredChain(s, root, x) ==> Get(els, x).Some? && step(x, els) == Get(els, x)
  }

  /** A walk along the chain of `root` whose every step keeps the entry there changes nothing. */
  lemma {:induction false} RecursiveAddKeeps(s: AknSchema, root: string, name: string, els: Dict<Value>, vis: set<string>, step: Step)
    requires OnRequiredChain(s, root, name) && StepKeeps(s, root, els, step)
    ensures RecursiveAdd(s, name, els, vis, step).Some?
    ensures RecursiveAdd(s, name, els, vis, step).value.els == els
    decreases |SchemaNames(s) - vis|, 0, 0
  {
    if name !in vis && HasElement(s, name) {
      PutSame(els, name, step(name, els).value);
      var vis1 := vis + {name};
      assert |SchemaNames(s) - vis1| < |SchemaNames(s) - vis| by {
        assert SchemaNames(s) - vis == (SchemaNames(s) - vis1) + {name};
      }
      var cs := GetElementInfo(s, name).value.children;
      forall j | 0 <= j < |cs| && cs[j].required ensures OnRequiredChain(s, root, cs[j].name) {
        ChildOnChain(s, name, cs[j]);
        ChainTrans(s, root, name, cs[j].name);
      }
      AddChildrenKeeps(s, root, cs, 0, els, vis1, step);
    }
  }

  lemma {:induction false} AddChildrenKeeps(s: AknSchema, root: string, cs: seq<ChildInfo>, i: nat, els: Dict<Value>, vis: set<string>, step: Step)
    requires i <= |cs| && StepKeeps(s, root, els, step)
    requires forall j :: i <= j < |cs| && cs[j].required ==> OnRequiredChain(s, root, cs[j].name)
    ensures AddChildren(s, cs, i, els, vis, step).Some?
    ensures AddChildren(s, cs, i, els, vis, step).value.els == els
    decreases |SchemaNames(s) - vis|, 1, |cs| - i
  {
    if i < |cs| && !cs[i].required {
      AddChildrenKeeps(s, root, cs, i + 1, els, vis, step);
    } else if i < |cs| {
      RecursiveAddKeeps(s, root, cs[i].name, els, vis, step);
      var w1 := RecursiveAdd(s, cs[i].name, els, vis, step).value;
      SubsetCard(SchemaNames(s) - w1.visited, SchemaNames(s) - vis);
      AddChildrenKeeps(s, root, cs, i + 1, els, w1.visited, step);
    }
  }

  /** After the first corrected walk every known element on the chain of `name` has a settled entry. */
  lemma WalkSettlesChain(s: AknSchema, auto: seq<string>, o: ExpandOptions, name: string, els: Dict<Value>, w: Walk)
    requires RecursiveAdd(s, name, els, {}, ExpandStep(s, auto, o, true)) == Some(w)
    ensures forall x :: HasElement(s, x) && OnRequiredChain(s, name, x) ==>
      Get(w.els, x).Some? && Settled(s, auto, o, x, Get(w.els, x).value)
  {
    var step := ExpandStep(s, auto, o, true);
    RecursiveAddSettles(s, auto, o, name, els, {}, w);
    RecursiveAddClosed(s, name, els, {}, step, w);
    assert Closed(s, w.visited) by {
      assert w.visited - {} == w.visited;
    }
    forall x | HasElement(s, x) && OnRequiredChain(s, name, x)
      ensures Get(w.els, x).Some? && Settled(s, auto, o, x, Get(w.els, x).value)
    {
      ClosedHoldsChain(s, w.visited, name, x);
    }
  }

  /**
   Elements that agree with the walk's on the chain of `name`, the root
   aside, make the corrected step a no-op along that chain.
   */
  lemma SettledStepKeeps(s: AknSchema, auto: seq<string>, o: ExpandOptions, name: string, wels: Dict<Value>, out: Dict<Value>)
    requires !(HasElement(s, Root) && OnRequiredChain(s, name, Root))
    requires forall x :: HasElement(s, x) && OnRequiredChain(s, name, x) ==>
      Get(wels, x).Some? && Settled(s, auto, o, x, Get(wels, x).value)
    requires forall k :: k != Root ==> Get(out, k) == Get(wels, k)
    ensures StepKeeps(s, name, out, ExpandStep(s, auto, o, true))
  {
    forall x | HasElement(s, x) && OnRequiredChain(s, name, x)
      ensures Get(out, x).Some? && ExpandStep(s, auto, o, true)(x, out) == Get(out, x)
    {
      assert x != Root;
      var info := GetElementInfo(s, x).value;
      var u := Get(wels, x).value;
      assert Get(out, x) == Some(u);
      assert EntryFor(s, x, out, auto, o, true) == UpdateEntryBy(u, info, IdAttrsFor(auto, info), o, true);
    }
  }

  /**
   `expand_element` run twice with the correction is run once: the
   second walk finds every entry on the chain already settled, the root
   step finds the root already set, and the order is already canonical.
   This holds unless the walk itself reaches `akomaNtoso` or the root
   step has to create an `akomaNtoso` entry that lists itself; see
   EnsureRootIdempotent.
   */
  lemma ExpandElementIdempotent(raw: Value, name: string, s: AknSchema, o: ExpandOptions)
    requires ExpandElement(raw, name, s, o, true).Dumped?
    requires !(HasElement(s, Root) && OnRequiredChain(s, name, Root))
    requires Root in Keys(ElementsOrEmpty(raw)) ||
      (DocTypes(ProfileOf(raw).value).Some? && Root !in DocTypes(ProfileOf(raw).value).value)
    ensures ExpandElement(ExpandElement(raw, name, s, o, true).raw, name, s, o, true) == ExpandElement(raw, name, s, o, true)
  {
    var step := ExpandStep(s, AutoIdList(o), o, true);
    var w := RecursiveAdd(s, name, ElementsOrEmpty(raw), {}, step).value;
    var e2 := EnsureRoot(ProfileOf(raw).value, w.els).value;
    var raw1 := WithElements(raw, ApplyElementOrder(e2));
    assert ExpandElement(raw, name, s, o, true) == Dumped(raw1);
    FirstExpandLeaves(raw, name, s, o, w);
    ReexpandSame(raw1, name, s, o);
  }

  /** The document the first corrected expand dumps satisfies what ReexpandSame asks of it. */
  lemma FirstExpandLeaves(raw: Value, name: string, s: AknSchema, o: ExpandOptions, w: Walk)
    requires ProfileOf(raw).Some?
    requires RecursiveAdd(s, name, ElementsOrEmpty(raw), {}, ExpandStep(s, AutoIdList(o), o, true)) == Some(w)
    requires EnsureRoot(ProfileOf(raw).value, w.els).Some?
    requires !(HasElement(s, Root) && OnRequiredChain(s, name, Root))
    requires Root in Keys(ElementsOrEmpty(raw)) || Root !in DocTypes(ProfileOf(raw).value).value
    ensures var raw1 := WithElements(raw, ApplyElementOrder(EnsureRoot(ProfileOf(raw).value, w.els).value));
      && ElementsOf(raw1).Some?
      && StepKeeps(s, name, ElementsOf(raw1).value, ExpandStep(s, AutoIdList(o), o, true))
      && EnsureRoot(ProfileOf(raw1).value, ElementsOf(raw1).value).Some?
      && ApplyElementOrder(EnsureRoot(ProfileOf(raw1).value, ElementsOf(raw1).value).value) == ElementsOf(raw1).value
  {
    var profile := ProfileOf(raw).value;
    var out := ApplyElementOrder(EnsureRoot(profile, w.els).value);
    FirstExpandSettles(s, o, name, ElementsOrEmpty(raw), w, profile);
    WithElementsKeeps(raw, out, "documentTypes");
    EnsureRootReadsDocTypes(ProfileOf(WithElements(raw, out)).value, profile, out);
  }

  /**
   What the first corrected expand leaves: elements the step keeps along
   the chain of `name`, and that the root step and the ordering give back.
   */
  lemma FirstExpandSettles(s: AknSchema, o: ExpandOptions, name: string, els: Dict<Value>, w: Walk, profile: Dict<Value>)
    requires RecursiveAdd(s, name, els, {}, ExpandStep(s, AutoIdList(o), o, true)) == Some(w)
    requires EnsureRoot(profile, w.els).Some?
    requires !(HasElement(s, Root) && OnRequiredChain(s, name, Root))
    requires Root in Keys(els) || Root !in DocTypes(profile).value
    ensures var out := ApplyElementOrder(EnsureRoot(profile, w.els).value);
      && StepKeeps(s, name, out, ExpandStep(s, AutoIdList(o), o, true))
      && EnsureRoot(profile, out).Some?
      && ApplyElementOrder(EnsureRoot(profile, out).value) == out
  {
    var auto := AutoIdList(o);
    var e2 := EnsureRoot(profile, w.els).value;
    var out := ApplyElementOrder(e2);
    WalkAddsChain(s, name, els, ExpandStep(s, auto, o, true), w);
    WalkSettlesChain(s, auto, o, name, els, w);
    assert forall k :: k != Root ==> Get(out, k) == Get(w.els, k) by {
      forall k | k != Root ensures Get(out, k) == Get(w.els, k) {
        assert Get(out, k) == Get(e2, k);
      }
    }
    SettledStepKeeps(s, auto, o, name, w.els, out);
    EnsureRootIdempotent(profile, w.els);
    RootStepKeepsOrder(profile, e2);
  }

  /**
   An expand of a document whose elements the step leaves alone along the
   chain of `name`, and which the root step and the ordering give back,
   dumps the document as it is.
   */
  lemma ReexpandSame(raw: Value, name: string, s: AknSchema, o: ExpandOptions)
    requires ElementsOf(raw).Some?
    requires StepKeeps(s, name, ElementsOf(raw).value, ExpandStep(s, AutoIdList(o), o, true))
    requires EnsureRoot(ProfileOf(raw).value, ElementsOf(raw).value).Some?
    requires ApplyElementOrder(EnsureRoot(ProfileOf(raw).value, ElementsOf(raw).value).value) == ElementsOf(raw).value
    ensures ExpandElement(raw, name, s, o, true) == Dumped(raw)
  {
    var out := ElementsOf(raw).value;
    assert ElementsOrEmpty(raw) == out;
    ChainRefl(s, name);
    RecursiveAddKeeps(s, name, name, out, {}, ExpandStep(s, AutoIdList(o), o, true));
    WithElementsSame(raw, out);
  }

  /** The root step and the ordering, run on the canonical order of a mapping the root step keeps, give that order back. */
  lemma RootStepKeepsOrder(profile: Dict<Value>, e2: Dict<Value>)
    requires EnsureRoot(profile, e2) == Some(e2)
    ensures EnsureRoot(profile, ApplyElementOrder(e2)).Some?
    ensures ApplyElementOrder(EnsureRoot(profile, ApplyElementOrder(e2)).value) == ApplyElementOrder(e2)
  {
    var out := ApplyElementOrder(e2);
    EnsureRootIgnoresListing(profile, e2, out);
    ApplyOrderIgnoresListing(EnsureRoot(profile, out).value, e2);
  }
}
