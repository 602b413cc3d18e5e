/**
 The queryable form of the Akoma Ntoso schema (`xsd/schema_loader.py`):
 element, child and attribute descriptors, the cardinality notation, the
 query API, the derivation of occurrence bounds from the generated
 dataclass fields, and the attachment of choice groups to elements.
 The introspection that produces the field descriptors is not modelled;
 its results are inputs here.
 */
module Schema {
  import opened Wrappers
  import opened Strings
  import opened Dicts
  import opened Dedup
  import opened ChoiceParser

  // ---------------------------------------------------------------------
  // Records.
  // ---------------------------------------------------------------------

  datatype AttrInfo = AttrInfo(
    name: string,
    pythonName: string,
    required: bool,
    typeHint: string,
    enumValues: seq<string>,
    pattern: Option<string>,
    doc: string)

  /** A child element; `maxOccurs` is `None` when unbounded. */
  datatype ChildInfo = ChildInfo(
    name: string,
    pythonName: string,
    required: bool,
    isList: bool,
    typeName: string,
    minOccurs: int,
    maxOccurs: Option<int>,
    choiceGroupIds: seq<string>)

  datatype ElementInfo = ElementInfo(
    xmlName: string,
    className: string,
    parentClasses: seq<string>,
    attributes: seq<AttrInfo>,
    children: seq<ChildInfo>,
    namespace: string,
    doc: string,
    choiceGroups: seq<ChoiceGroup>)

  /** The element index by XML name and the enumeration registry. */
  datatype AknSchema = AknSchema(elements: Dict<ElementInfo>, enums: Dict<seq<string>>)

  // ---------------------------------------------------------------------
  // Cardinality notation.
  // ---------------------------------------------------------------------

  /** `"min..max"` with `*` for an unbounded maximum. */
  function FormatCardinality(lo: int, hi: Option<int>): string
  {
    IntToString(lo) + ".." + (if hi.None? then "*" else IntToString(hi.value))
  }

  /** `ChildInfo.cardinality`. */
  function ChildCardinality(c: ChildInfo): string
  {
    FormatCardinality(c.minOccurs, c.maxOccurs)
  }

  /** `AttrInfo.cardinality`: `1..1` for a required attribute, else `0..1`. */
  function AttrCardinality(a: AttrInfo): (r: string)
    ensures r == FormatCardinality(if a.required then 1 else 0, Some(1))
  {
    if a.required then "1..1" else "0..1"
  }

  // ---------------------------------------------------------------------
  // Query API.
  // ---------------------------------------------------------------------

  predicate HasElement(s: AknSchema, name: string)
  {
    name in Keys(s.elements)
  }

  function GetElementInfo(s: AknSchema, name: string): (r: Option<ElementInfo>)
    ensures r.Some? <==> HasElement(s, name)
    ensures r.Some? ==> Entry(name, r.value) in s.elements
  {
    Get(s.elements, name)
  }

  function ChildNames(cs: seq<ChildInfo>): (r: seq<string>)
    ensures |r| == |cs| && forall i :: 0 <= i < |cs| ==> r[i] == cs[i].name
  {
    seq(|cs|, i requires 0 <= i < |cs| => cs[i].name)
  }

  function AttrNames(as_: seq<AttrInfo>): (r: seq<string>)
    ensures |r| == |as_| && forall i :: 0 <= i < |as_| ==> r[i] == as_[i].name
  {
    seq(|as_|, i requires 0 <= i < |as_| => as_[i].name)
  }

  /** `get_children`: the child names of a known element, `[]` for an unknown one. */
  function GetChildren(s: AknSchema, name: string): (r: seq<string>)
    ensures !HasElement(s, name) ==> r == []
    ensures HasElement(s, name) ==> r == ChildNames(GetElementInfo(s, name).value.children)
  {
    match GetElementInfo(s, name)
    case None => []
    case Some(info) => ChildNames(info.children)
  }

  function GetAttributes(s: AknSchema, name: string): (r: seq<AttrInfo>)
    ensures !HasElement(s, name) ==> r == []
    ensures HasElement(s, name) ==> r == GetElementInfo(s, name).value.attributes
  {
    match GetElementInfo(s, name)
    case None => []
    case Some(info) => info.attributes
  }

  /** The required attributes, in declaration order. */
  function RequiredAttrs(as_: seq<AttrInfo>): (r: seq<AttrInfo>)
    ensures Subseq(r, as_)
    ensures forall a :: a in r <==> a in as_ && a.required
  {
    if as_ == [] then []
    else
      var rest := RequiredAttrs(as_[1..]);
      assert forall a :: a in as_ <==> a == as_[0] || a in as_[1..];
      if as_[0].required then [as_[0]] + rest
      else
        SubseqSkip(as_[0], rest, as_[1..]);
        rest
  }

  /** The required children, in declaration order. */
  function RequiredChildren(cs: seq<ChildInfo>): (r: seq<ChildInfo>)
    ensures Subseq(r, cs)
    ensures forall c :: c in r <==> c in cs && c.required
  {
    if cs == [] then []
    else
      var rest := RequiredChildren(cs[1..]);
      assert forall c :: c in cs <==> c == cs[0] || c in cs[1..];
      if cs[0].required then [cs[0]] + rest
      else
        SubseqSkip(cs[0], rest, cs[1..]);
        rest
  }

  function GetRequiredAttributes(s: AknSchema, name: string): (r: seq<AttrInfo>)
    ensures Subseq(r, GetAttributes(s, name))
    ensures forall a :: a in r <==> a in GetAttributes(s, name) && a.required
  {
    RequiredAttrs(GetAttributes(s, name))
  }

  function GetRequiredChildren(s: AknSchema, name: string): (r: seq<ChildInfo>)
    ensures !HasElement(s, name) ==> r == []
    ensures HasElement(s, name) ==> Subseq(r, GetElementInfo(s, name).value.children)
    ensures HasElement(s, name) ==> forall c :: c in r <==> c in GetElementInfo(s, name).value.children && c.required
  {
    match GetElementInfo(s, name)
    case None => []
    case Some(info) => RequiredChildren(info.children)
  }

  /** `{a.name: a for a in attrs}.get(name)`: a later attribute of the same name wins. */
  function AttrByName(as_: seq<AttrInfo>, name: string): (r: Option<AttrInfo>)
    ensures r.None? <==> forall i :: 0 <= i < |as_| ==> as_[i].name != name
    ensures r.Some? ==> exists i :: (0 <= i < |as_| && as_[i] == r.value && r.value.name == name &&
      forall j :: i < j < |as_| ==> as_[j].name != name)
  {
    if as_ == [] then None
    else if as_[|as_| - 1].name == name then Some(as_[|as_| - 1])
    else
      var r := AttrByName(as_[..|as_| - 1], name);
      assert forall i :: 0 <= i < |as_| - 1 ==> as_[..|as_| - 1][i] == as_[i];
      r
  }

  /** `{c.name: c for c in children}.get(name)`: a later child of the same name wins. */
  function ChildByName(cs: seq<ChildInfo>, name: string): (r: Option<ChildInfo>)
    ensures r.None? <==> forall i :: 0 <= i < |cs| ==> cs[i].name != name
    ensures r.Some? ==> exists i :: (0 <= i < |cs| && cs[i] == r.value && r.value.name == name &&
      forall j :: i < j < |cs| ==> cs[j].name != name)
  {
    if cs == [] then None
    else if cs[|cs| - 1].name == name then Some(cs[|cs| - 1])
    else
      var r := ChildByName(cs[..|cs| - 1], name);
      assert forall i :: 0 <= i < |cs| - 1 ==> cs[..|cs| - 1][i] == cs[i];
      r
  }

  /** `element_names`: every known element name, once, sorted. */
  function ElementNames(s: AknSchema): (r: seq<string>)
    ensures StrictlySorted(r)
    ensures forall x :: x in r <==> HasElement(s, x)
  {
    SortSet(set k | k in Keys(s.elements))
  }

  function GetEnumValues(s: AknSchema, enumName: string): (r: Option<seq<string>>)
    ensures r.Some? <==> enumName in Keys(s.enums)
  {
    Get(s.enums, enumName)
  }

  function GetChoiceGroups(s: AknSchema, name: string): (r: seq<ChoiceGroup>)
    ensures !HasElement(s, name) ==> r == []
    ensures HasElement(s, name) ==> r == GetElementInfo(s, name).value.choiceGroups
  {
    match GetElementInfo(s, name)
    case None => []
    case Some(info) => info.choiceGroups
  }

  /** A group that constrains the content: at least one occurrence, or one branch only. */
  predicate Meaningful(g: ChoiceGroup)
  {
    g.minOccurs >= 1 || g.exclusive
  }

  /** Position of the primary group: the first meaningful one, else the first. */
  function PrimaryIndex(gs: seq<ChoiceGroup>): (i: nat)
    requires gs != []
    ensures i < |gs|
    ensures forall j :: 0 <= j < i ==> !Meaningful(gs[j])
    ensures Meaningful(gs[i]) || (i == 0 && forall j :: 0 <= j < |gs| ==> !Meaningful(gs[j]))
  {
    if Meaningful(gs[0]) || |gs| == 1 then 0
    else
      var k := PrimaryIndex(gs[1..]);
      if Meaningful(gs[1..][k]) then k + 1 else 0
  }

  /** `get_choice_cardinality`: the primary group's bounds, `None` without groups. */
  function GetChoiceCardinality(s: AknSchema, name: string): (r: Option<string>)
    ensures r.None? <==> GetChoiceGroups(s, name) == []
    ensures r.Some? ==> var gs := GetChoiceGroups(s, name);
      exists i :: 0 <= i < |gs| && r.value == FormatCardinality(gs[i].minOccurs, gs[i].maxOccurs) &&
        (forall j :: 0 <= j < i ==> !Meaningful(gs[j])) &&
        (Meaningful(gs[i]) || (i == 0 && forall j :: 0 <= j < |gs| ==> !Meaningful(gs[j])))
  {
    var gs := GetChoiceGroups(s, name);
    if gs == [] then None
    else
      var g := gs[PrimaryIndex(gs)];
      Some(FormatCardinality(g.minOccurs, g.maxOccurs))
  }

  // ---------------------------------------------------------------------
  // The required-child chain.
  // ---------------------------------------------------------------------

  /** The names of all known elements. */
  function SchemaNames(s: AknSchema): (r: set<string>)
    ensures forall x :: x in r <==> HasElement(s, x)
  {
    set k | k in Keys(s.elements)
  }

  /** Every known element of `vs` has its required children in `vs` too. */
  predicate Closed(s: AknSchema, vs: set<string>)
  {
    forall x :: x in vs && HasElement(s, x) ==>
      forall c :: c in GetElementInfo(s, x).value.children && c.required ==> c.name in vs
  }

  /** The names newly visited between `before` and `after` that are known have their required children in `after`. */
  predicate ClosedOver(s: AknSchema, before: set<string>, after: set<string>)
  {
    forall x :: x in after - before && HasElement(s, x) ==>
      forall c :: c in GetElementInfo(s, x).value.children && c.required ==> c.name in after
  }

  /** `x` lies on the required-child chain of `root`: every closed set containing `root` contains `x`. */
  ghost predicate OnRequiredChain(s: AknSchema, root: string, x: string)
  {
    forall vs: set<string> :: root in vs && Closed(s, vs) ==> x in vs
  }

  lemma SubsetCard(a: set<string>, b: set<string>)
    requires a <= b
    ensures |a| <= |b|
  {
    assert b == a + (b - a);
    assert a * (b - a) == {};
  }

  // ---------------------------------------------------------------------
  // Fields of the generated dataclasses.
  // ---------------------------------------------------------------------

  /** The `type` key of a field's xsdata metadata. */
  datatype FieldKind = AttributeField | ElementField | ElementsField | WildcardField | TextField | OtherField

  /** What a dataclass field declares as its default. */
  datatype FieldDefault = NoDefault | DefaultValue(isNone: bool) | DefaultFactory

  /**
   One dataclass field as the introspection sees it. `typeName`,
   `enumValues` and `typeHint` are the results of the type-hint helpers.
   */
  datatype Field = Field(
    fieldName: string,
    metaName: Option<string>,
    kind: FieldKind,
    typeHint: string,
    typeName: string,
    enumValues: seq<string>,
    pattern: Option<string>,
    xsdMinOccurs: int,
    xsdRequired: bool,
    fieldDefault: FieldDefault)

  /** `_is_required`: a default decides by not being `None`; a factory means optional. */
  predicate IsRequired(d: FieldDefault)
  {
    match d
    case DefaultValue(isNone) => !isNone
    case DefaultFactory => false
    case NoDefault => true
  }

  function XmlName(f: Field): string
  {
    if f.metaName.Some? then f.metaName.value else f.fieldName
  }

  /** A type hint naming a list type. */
  predicate IsListHint(hint: string)
  {
    Contains(Lower(hint), "list[")
  }

  function Max(a: int, b: int): int
  {
    if a >= b then a else b
  }

  predicate IsChildKind(k: FieldKind)
  {
    k == ElementField || k == ElementsField || k == WildcardField
  }

  /** The child a field describes, if it is an element field. */
  function ChildOf(f: Field): (r: Option<ChildInfo>)
    ensures r.Some? <==> IsChildKind(f.kind)
    ensures r.Some? ==> r.value.name == XmlName(f) && r.value.choiceGroupIds == []
    ensures r.Some? ==> (r.value.required <==> r.value.minOccurs >= 1)
    ensures r.Some? && !r.value.isList ==> r.value.maxOccurs == Some(1) && 0 <= r.value.minOccurs <= 1
    ensures r.Some? && !r.value.isList ==> (r.value.required <==> IsRequired(f.fieldDefault))
    ensures r.Some? && r.value.isList ==> r.value.maxOccurs.None?
    // a list's minimum is the larger of the XSD minimum and the floor its `required` flag sets
    ensures r.Some? && r.value.isList ==> var floor := if f.xsdRequired then 1 else 0;
      r.value.minOccurs >= f.xsdMinOccurs && r.value.minOccurs >= floor &&
      (r.value.minOccurs == f.xsdMinOccurs || r.value.minOccurs == floor)
    ensures r.Some? ==> (r.value.isList <==> f.kind != ElementField || IsListHint(f.typeHint))
  {
    if !IsChildKind(f.kind) then None
    else
      var isList := f.kind != ElementField || IsListHint(f.typeHint);
      var lo := if isList then Max(f.xsdMinOccurs, if f.xsdRequired then 1 else 0)
                else if IsRequired(f.fieldDefault) then 1 else 0;
      var hi := if isList then None else Some(1);
      Some(ChildInfo(XmlName(f), f.fieldName, lo >= 1, isList, f.typeName, lo, hi, []))
  }

  /** The attribute a field describes, if it is an attribute field. */
  function AttrOf(f: Field, attrDocs: Dict<string>): (r: Option<AttrInfo>)
    ensures r.Some? <==> f.kind == AttributeField
    ensures r.Some? ==> r.value.name == XmlName(f) && (r.value.required <==> IsRequired(f.fieldDefault))
    ensures r.Some? ==> r.value.enumValues == f.enumValues && r.value.pattern == f.pattern
  {
    if f.kind != AttributeField then None
    else
      var name := XmlName(f);
      Some(AttrInfo(name, f.fieldName, IsRequired(f.fieldDefault), f.typeHint, f.enumValues, f.pattern,
        Get(attrDocs, name).GetOr("")))
  }

  /** `_classify_fields`: attributes and children, each in field order. */
  function ClassifyFields(fs: seq<Field>, attrDocs: Dict<string>): (r: (seq<AttrInfo>, seq<ChildInfo>))
    ensures |r.0| + |r.1| <= |fs|
    ensures forall a :: a in r.0 <==> exists f :: f in fs && AttrOf(f, attrDocs) == Some(a)
    ensures forall c :: c in r.1 <==> exists f :: f in fs && ChildOf(f) == Some(c)
    ensures r == (AttrsIn(fs, attrDocs), ChildrenIn(fs))
  {
    if fs == [] then ([], [])
    else
      var (attrs, children) := ClassifyFields(fs[1..], attrDocs);
      assert forall f :: f in fs <==> f == fs[0] || f in fs[1..];
      (Listed(AttrOf(fs[0], attrDocs)) + attrs, Listed(ChildOf(fs[0])) + children)
  }

  /** The value of an option as a list of zero or one elements. */
  function Listed<T>(o: Option<T>): seq<T>
  {
    match o
    case Some(x) => [x]
    case None => []
  }

  /** The attributes the fields describe, one per attribute field, in field order. */
  function AttrsIn(fs: seq<Field>, attrDocs: Dict<string>): seq<AttrInfo>
  {
    if fs == [] then [] else Listed(AttrOf(fs[0], attrDocs)) + AttrsIn(fs[1..], attrDocs)
  }

  /** The children the fields describe, one per child field, in field order. */
  function ChildrenIn(fs: seq<Field>): seq<ChildInfo>
  {
    if fs == [] then [] else Listed(ChildOf(fs[0])) + ChildrenIn(fs[1..])
  }

  /** One field classifies into its own attribute, its own child, or nothing. */
  lemma ClassifyOne(f: Field, attrDocs: Dict<string>)
    ensures ClassifyFields([f], attrDocs) == (Listed(AttrOf(f, attrDocs)), Listed(ChildOf(f)))
  {
    assert [f][1..] == [];
    assert Listed(AttrOf(f, attrDocs)) + [] == Listed(AttrOf(f, attrDocs));
    assert Listed(ChildOf(f)) + [] == Listed(ChildOf(f));
  }

  /**
   Classifying two runs of fields one after the other gives the attributes
   of the first run followed by those of the second, and likewise for the
   children: the order of the fields is the order of the result.
   */
  lemma ClassifyAppend(fs1: seq<Field>, fs2: seq<Field>, attrDocs: Dict<string>)
    ensures ClassifyFields(fs1 + fs2, attrDocs).0 == ClassifyFields(fs1, attrDocs).0 + ClassifyFields(fs2, attrDocs).0
    ensures ClassifyFields(fs1 + fs2, attrDocs).1 == ClassifyFields(fs1, attrDocs).1 + ClassifyFields(fs2, attrDocs).1
  {
    AttrsAppend(fs1, fs2, attrDocs);
    ChildrenAppend(fs1, fs2);
  }

  lemma {:induction false} AttrsAppend(fs1: seq<Field>, fs2: seq<Field>, attrDocs: Dict<string>)
    ensures AttrsIn(fs1 + fs2, attrDocs) == AttrsIn(fs1, attrDocs) + AttrsIn(fs2, attrDocs)
  {
    if fs1 == [] {
      assert fs1 + fs2 == fs2;
    } else {
      assert (fs1 + fs2)[0] == fs1[0] && (fs1 + fs2)[1..] == fs1[1..] + fs2;
      AttrsAppend(fs1[1..], fs2, attrDocs);
    }
  }

  lemma {:induction false} ChildrenAppend(fs1: seq<Field>, fs2: seq<Field>)
    ensures ChildrenIn(fs1 + fs2) == ChildrenIn(fs1) + ChildrenIn(fs2)
  {
    if fs1 == [] {
      assert fs1 + fs2 == fs2;
    } else {
      assert (fs1 + fs2)[0] == fs1[0] && (fs1 + fs2)[1..] == fs1[1..] + fs2;
      ChildrenAppend(fs1[1..], fs2);
    }
  }

  // ---------------------------------------------------------------------
  // Attaching choice groups.
  // ---------------------------------------------------------------------

  /** The first complex type whose name equals `name` ignoring case. */
  function CaseInsensitiveLookup(tcg: Dict<seq<ChoiceGroup>>, name: string): (r: Option<seq<ChoiceGroup>>)
    ensures r.None? <==> forall i :: 0 <= i < |tcg| ==> Lower(tcg[i].key) != Lower(name)
    ensures r.Some? ==> exists i :: (0 <= i < |tcg| && Lower(tcg[i].key) == Lower(name) && tcg[i].val == r.value &&
      forall j :: 0 <= j < i ==> Lower(tcg[j].key) != Lower(name))
  {
    if tcg == [] then None
    else if Lower(tcg[0].key) == Lower(name) then Some(tcg[0].val)
    else
      var r := CaseInsensitiveLookup(tcg[1..], name);
      assert forall i :: 1 <= i < |tcg| ==> tcg[i] == tcg[1..][i - 1];
      if r.Some? then
        var i :| 0 <= i < |tcg[1..]| && Lower(tcg[1..][i].key) == Lower(name) && tcg[1..][i].val == r.value &&
          forall j :: 0 <= j < i ==> Lower(tcg[1..][j].key) != Lower(name);
        assert forall j :: 0 <= j < i + 1 ==> Lower(tcg[j].key) != Lower(name);
        r
      else r
  }

  /** The groups a candidate type name contributes: exact match first, then ignoring case. */
  function GroupsForType(tcg: Dict<seq<ChoiceGroup>>, name: string): (r: seq<ChoiceGroup>)
    ensures name in Keys(tcg) ==> r == Get(tcg, name).value
    ensures name !in Keys(tcg) ==> r == CaseInsensitiveLookup(tcg, name).GetOr([])
  {
    match Get(tcg, name)
    case Some(gs) => gs
    case None => CaseInsensitiveLookup(tcg, name).GetOr([])
  }

  /** The groups of all candidate type names, in candidate order. */
  function MatchGroups(tcg: Dict<seq<ChoiceGroup>>, candidates: seq<string>): (r: seq<ChoiceGroup>)
    ensures forall g :: g in r <==> exists i :: 0 <= i < |candidates| && g in GroupsForType(tcg, candidates[i])
  {
    if candidates == [] then []
    else
      var rest := MatchGroups(tcg, candidates[1..]);
      assert forall i :: 1 <= i < |candidates| ==> candidates[i] == candidates[1..][i - 1];
      GroupsForType(tcg, candidates[0]) + rest
  }

  /** Ids of the groups, in order, whose members include `child`. */
  function GroupIdsFor(child: string, gs: seq<ChoiceGroup>): (r: seq<string>)
    ensures |r| <= |gs|
    ensures forall id :: id in r <==> exists g :: g in gs && child in AllElements(g) && g.groupId == id
  {
    if gs == [] then []
    else
      var rest := GroupIdsFor(child, gs[1..]);
      assert forall g :: g in gs <==> g == gs[0] || g in gs[1..];
      (if child in AllElements(gs[0]) then [gs[0].groupId] else []) + rest
  }

  function GroupId(g: ChoiceGroup): string
  {
    g.groupId
  }

  /** Tag every child with the groups that contain it; untouched when none does. */
  function AnnotateChildren(cs: seq<ChildInfo>, gs: seq<ChoiceGroup>): (r: seq<ChildInfo>)
    ensures |r| == |cs|
    ensures forall i :: 0 <= i < |cs| ==> r[i].(choiceGroupIds := cs[i].choiceGroupIds) == cs[i]
    ensures forall i :: 0 <= i < |cs| ==>
      r[i].choiceGroupIds == if GroupIdsFor(cs[i].name, gs) != [] then GroupIdsFor(cs[i].name, gs) else cs[i].choiceGroupIds
  {
    seq(|cs|, i requires 0 <= i < |cs| =>
      var ids := GroupIdsFor(cs[i].name, gs);
      if ids != [] then cs[i].(choiceGroupIds := ids) else cs[i])
  }

  /** `_attach_choice_groups` for one element. */
  function AttachOne(info: ElementInfo, tcg: Dict<seq<ChoiceGroup>>): (r: ElementInfo)
    ensures r.(children := info.children, choiceGroups := info.choiceGroups) == info
    ensures MatchGroups(tcg, [info.className] + info.parentClasses) == [] ==> r == info
    ensures MatchGroups(tcg, [info.className] + info.parentClasses) != [] ==>
      r.choiceGroups == DedupBy(MatchGroups(tcg, [info.className] + info.parentClasses), GroupId) &&
      r.children == AnnotateChildren(info.children, r.choiceGroups)
  {
    var matched := MatchGroups(tcg, [info.className] + info.parentClasses);
    if matched == [] then info
    else
      var unique := DedupBy(matched, GroupId);
      info.(children := AnnotateChildren(info.children, unique), choiceGroups := unique)
  }

  /** `_attach_choice_groups`: every element updated in place, keys and order kept. */
  function AttachChoiceGroups(s: AknSchema, tcg: Dict<seq<ChoiceGroup>>): (r: AknSchema)
    ensures Keys(r.elements) == Keys(s.elements) && r.enums == s.enums
    ensures forall i :: 0 <= i < |s.elements| ==> r.elements[i].val == AttachOne(s.elements[i].val, tcg)
  {
    var es := seq(|s.elements|, i requires 0 <= i < |s.elements| =>
      Entry(s.elements[i].key, AttachOne(s.elements[i].val, tcg)));
    AknSchema(es, s.enums)
  }
}
