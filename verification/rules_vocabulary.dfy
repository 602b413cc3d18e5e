/**
 Rule category 1, vocabulary (`validation/rules_vocabulary.py`): every
 document type, element, attribute, child and structure name the profile
 uses must exist in the schema.
 */
module RulesVocabulary {
  import opened Wrappers
  import opened Strings
  import opened Dicts
  import opened Errors
  import opened Profile
  import opened Schema
  import opened YamlParser
  import opened RuleKit

  const Ids: set<string> := {"vocabulary.unknown-document-type", "vocabulary.unknown-element", "vocabulary.unknown-attribute"}

  // Message wordings, with `{...}` marking the interpolated arguments.
  const UnknownDocTypeWording: string := "'{dt}' is not a valid AKN document type. Valid types: {valid}"
  const UnknownElementWording: string := "'{name}' is not a known AKN element"
  const UnknownAttributeWording: string := "'{attr}' is not a valid attribute on <{elem}>. Known attributes: {known}"

  const DocTypesPath: string := "profile.documentTypes"

  /** The document types the schema allows: the children of `akomaNtoso`. */
  function ValidDocTypes(s: AknSchema): (r: set<string>)
    ensures forall dt :: dt in r <==> dt in GetChildren(s, "akomaNtoso")
  {
    set c | c in GetChildren(s, "akomaNtoso")
  }

  function UnknownDocType(dt: string, i: nat, valid: set<string>, ix: LineIndex): (e: ValidationError)
    ensures e.ruleId == "vocabulary.unknown-document-type" && e.severity == Error
  {
    var path := At(DocTypesPath, i);
    Finding("vocabulary.unknown-document-type", path,
      Message(UnknownDocTypeWording, [dt, PyList(SortSet(valid))]),
      Error, GetLine(ix, path))
  }

  /** `_check_document_types`: one report per entry that is not a valid document type. */
  function CheckDocumentTypes(p: ProfileDocument, s: AknSchema, ix: LineIndex): (r: seq<ValidationError>)
    ensures forall e :: e in r <==>
      exists i :: (0 <= i < |p.documentTypes| && p.documentTypes[i] !in GetChildren(s, "akomaNtoso") &&
        e == UnknownDocType(p.documentTypes[i], i, ValidDocTypes(s), ix))
    ensures (forall dt :: dt in p.documentTypes ==> dt in GetChildren(s, "akomaNtoso")) ==> r == []
    ensures forall e :: e in r ==> e.ruleId == "vocabulary.unknown-document-type" && e.severity == Error
  {
    var valid := ValidDocTypes(s);
    Select(p.documentTypes, (i: nat, dt: string) => dt !in valid, (i: nat, dt: string) => UnknownDocType(dt, i, valid, ix))
  }

  function UnknownElement(path: string, name: string, ix: LineIndex): (e: ValidationError)
    ensures e.ruleId == "vocabulary.unknown-element" && e.severity == Error
  {
    Finding("vocabulary.unknown-element", path, Message(UnknownElementWording, [name]), Error, GetLine(ix, path))
  }

  function UnknownAttribute(elemName: string, attrName: string, known: set<string>, ix: LineIndex): (e: ValidationError)
    ensures e.ruleId == "vocabulary.unknown-attribute" && e.severity == Error
  {
    var path := Dot(Dot(ElemPath(elemName), "attributes"), attrName);
    Finding("vocabulary.unknown-attribute", path,
      Message(UnknownAttributeWording, [attrName, elemName, PyList(SortSet(known))]),
      Error, GetLine(ix, path))
  }

  /** The attribute names the schema declares on `elemName`. */
  function KnownAttrs(s: AknSchema, elemName: string): (r: set<string>)
    ensures forall a :: a in r <==> a in AttrNames(GetAttributes(s, elemName))
  {
    set a | a in AttrNames(GetAttributes(s, elemName))
  }

  function AttributeErrors(s: AknSchema, ix: LineIndex, elemName: string, rs: ElementRestriction): (r: seq<ValidationError>)
    ensures forall e :: e in r <==>
      exists i :: (0 <= i < |rs.attributes| && rs.attributes[i].key !in AttrNames(GetAttributes(s, elemName)) &&
        e == UnknownAttribute(elemName, rs.attributes[i].key, KnownAttrs(s, elemName), ix))
    ensures forall e :: e in r ==> e.ruleId == "vocabulary.unknown-attribute" && e.severity == Error
  {
    var known := KnownAttrs(s, elemName);
    Select(rs.attributes,
      (i: nat, a: Entry<AttributeRestriction>) => a.key !in known,
      (i: nat, a: Entry<AttributeRestriction>) => UnknownAttribute(elemName, a.key, known, ix))
  }

  function ChildErrors(s: AknSchema, ix: LineIndex, elemName: string, rs: ElementRestriction): (r: seq<ValidationError>)
    ensures forall e :: e in r <==>
      exists i :: (0 <= i < |rs.children| && !HasElement(s, rs.children[i].key) &&
        e == UnknownElement(Dot(Dot(ElemPath(elemName), "children"), rs.children[i].key), rs.children[i].key, ix))
    ensures forall e :: e in r ==> e.ruleId == "vocabulary.unknown-element" && e.severity == Error
  {
    Select(rs.children,
      (i: nat, c: Entry<Option<string>>) => !HasElement(s, c.key),
      (i: nat, c: Entry<Option<string>>) => UnknownElement(Dot(Dot(ElemPath(elemName), "children"), c.key), c.key, ix))
  }

  function StructureErrors(s: AknSchema, ix: LineIndex, elemName: string, rs: ElementRestriction): (r: seq<ValidationError>)
    ensures forall e :: e in r <==>
      exists i :: (0 <= i < |rs.structure| && !HasElement(s, rs.structure[i]) &&
        e == UnknownElement(At(Dot(ElemPath(elemName), "structure"), i), rs.structure[i], ix))
    ensures forall e :: e in r ==> e.ruleId == "vocabulary.unknown-element" && e.severity == Error
  {
    Select(rs.structure,
      (i: nat, n: string) => !HasElement(s, n),
      (i: nat, n: string) => UnknownElement(At(Dot(ElemPath(elemName), "structure"), i), n, ix))
  }

  /**
   `_check_elements` for one entry: an unknown element is reported once
   and nothing under it is examined; a known one has its attributes,
   children and structure entries checked, in that order.
   */
  function ElementErrors(s: AknSchema, ix: LineIndex, elemName: string, rs: ElementRestriction): (r: seq<ValidationError>)
    ensures !HasElement(s, elemName) ==> r == [UnknownElement(ElemPath(elemName), elemName, ix)]
    ensures HasElement(s, elemName) ==>
      r == AttributeErrors(s, ix, elemName, rs) + ChildErrors(s, ix, elemName, rs) + StructureErrors(s, ix, elemName, rs)
    ensures forall e :: e in r ==> e.severity == Error && e.ruleId in {"vocabulary.unknown-element", "vocabulary.unknown-attribute"}
  {
    if !HasElement(s, elemName) then [UnknownElement(ElemPath(elemName), elemName, ix)]
    else AttributeErrors(s, ix, elemName, rs) + ChildErrors(s, ix, elemName, rs) + StructureErrors(s, ix, elemName, rs)
  }

  function CheckElements(p: ProfileDocument, s: AknSchema, ix: LineIndex): (r: seq<ValidationError>)
    ensures forall e :: e in r <==>
      exists i :: 0 <= i < |p.elements| && e in ElementErrors(s, ix, p.elements[i].key, p.elements[i].val)
    ensures forall e :: e in r ==> e.severity == Error && e.ruleId in {"vocabulary.unknown-element", "vocabulary.unknown-attribute"}
  {
    Gather(p.elements, (i: nat, en: Entry<ElementRestriction>) => ElementErrors(s, ix, en.key, en.val))
  }

  /** `validate`: document types first, then elements; every report is an ERROR. */
  function Validate(p: ProfileDocument, s: AknSchema, ix: LineIndex): (r: seq<ValidationError>)
    ensures Tagged(r, Ids, {Error})
  {
    var r := CheckDocumentTypes(p, s, ix) + CheckElements(p, s, ix);
    assert forall i :: 0 <= i < |r| ==> r[i] in CheckDocumentTypes(p, s, ix) || r[i] in CheckElements(p, s, ix);
    r
  }
}
