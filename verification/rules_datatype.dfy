/**
 Rule category 3, data types (`validation/rules_datatype.py`): the values
 a profile allows for an attribute must come from the schema's
 enumeration and match its pattern facet. Regular expressions are not
 modelled: whether a pattern compiles and whether a value fully matches
 it are supplied by a `RegexOracle`.
 */
module RulesDatatype {
  import opened Wrappers
  import opened Strings
  import opened Dicts
  import opened Errors
  import opened Profile
  import opened Schema
  import opened YamlParser
  import opened RuleKit

  const Ids: set<string> := {"datatype.invalid-enum-value", "datatype.custom-enum-on-free-attribute", "datatype.pattern-mismatch"}

  // Message wordings, with `{...}` marking the interpolated arguments.
  const InvalidEnumWording: string := "'{val}' is not a valid value for attribute '{attr}' on <{elem}>. Allowed by XSD: {allowed}"
  const CustomEnumWording: string := "Attribute '{attr}' on <{elem}> is not enum-typed in the XSD. The profile adds a custom value restriction [{values}] — this is valid but not verifiable against the schema."
  const PatternWording: string := "'{val}' does not match the XSD pattern /{pattern}/ for attribute '{attr}' on <{elem}>"

  /** `re.compile(p)` succeeds; `re.compile(p).fullmatch(v)` matches. */
  datatype RegexOracle = RegexOracle(compiles: string -> bool, fullMatch: (string, string) -> bool)

  function AttrPath(elemName: string, attrName: string): string
  {
    Dot(Dot(ElemPath(elemName), "attributes"), attrName)
  }

  function InvalidEnum(elemName: string, attrName: string, val: string, i: nat, allowed: seq<string>, ix: LineIndex): (e: ValidationError)
    ensures e.ruleId == "datatype.invalid-enum-value" && e.severity == Error
  {
    var path := At(Dot(AttrPath(elemName, attrName), "values"), i);
    Finding("datatype.invalid-enum-value", path,
      Message(InvalidEnumWording, [val, attrName, elemName, PyList(SortSet(set v | v in allowed))]), Error, GetLine(ix, path))
  }

  function CustomEnum(elemName: string, attrName: string, values: seq<string>, ix: LineIndex): (e: ValidationError)
    ensures e.ruleId == "datatype.custom-enum-on-free-attribute" && e.severity == Info
  {
    var path := Dot(AttrPath(elemName, attrName), "values");
    Finding("datatype.custom-enum-on-free-attribute", path, Message(CustomEnumWording, [attrName, elemName, Join(values, ", ")]), Info, GetLine(ix, path))
  }

  function PatternMismatch(elemName: string, attrName: string, val: string, i: nat, pattern: string, ix: LineIndex): (e: ValidationError)
    ensures e.ruleId == "datatype.pattern-mismatch" && e.severity == Error
  {
    var path := At(Dot(AttrPath(elemName, attrName), "values"), i);
    Finding("datatype.pattern-mismatch", path, Message(PatternWording, [val, pattern, attrName, elemName]), Error, GetLine(ix, path))
  }

  /** One report per value outside the enumeration, with its index; none for a subset. */
  function EnumViolations(elemName: string, attrName: string, allowed: seq<string>, values: seq<string>, ix: LineIndex): (r: seq<ValidationError>)
    ensures forall e :: e in r <==>
      exists i :: (0 <= i < |values| && values[i] !in allowed && e == InvalidEnum(elemName, attrName, values[i], i, allowed, ix))
    ensures (forall v :: v in values ==> v in allowed) ==> r == []
    ensures forall e :: e in r ==> e.ruleId == "datatype.invalid-enum-value" && e.severity == Error
  {
    Select(values, (i: nat, v: string) => v !in allowed, (i: nat, v: string) => InvalidEnum(elemName, attrName, v, i, allowed, ix))
  }

  /**
   The enumeration sub-check: the violations against an enumerated type,
   or a single INFO note when the schema does not enumerate the attribute.
   */
  function EnumReports(elemName: string, attrName: string, info: AttrInfo, values: seq<string>, ix: LineIndex): (r: seq<ValidationError>)
    ensures info.enumValues != [] ==> r == EnumViolations(elemName, attrName, info.enumValues, values, ix)
    ensures info.enumValues == [] ==> r == [CustomEnum(elemName, attrName, values, ix)]
    ensures Tagged(r, Ids, {Error, Info})
  {
    if info.enumValues != [] then
      var r := EnumViolations(elemName, attrName, info.enumValues, values, ix);
      assert forall i :: 0 <= i < |r| ==> r[i] in r;
      r
    else [CustomEnum(elemName, attrName, values, ix)]
  }

  /** One report per value the pattern does not fully match, with its index. */
  function PatternViolations(re: RegexOracle, elemName: string, attrName: string, pattern: string, values: seq<string>, ix: LineIndex): (r: seq<ValidationError>)
    ensures forall e :: e in r <==>
      exists i :: (0 <= i < |values| && !re.fullMatch(pattern, values[i]) && e == PatternMismatch(elemName, attrName, values[i], i, pattern, ix))
    ensures (forall v :: v in values ==> re.fullMatch(pattern, v)) ==> r == []
    ensures forall e :: e in r ==> e.ruleId == "datatype.pattern-mismatch" && e.severity == Error
  {
    Select(values, (i: nat, v: string) => !re.fullMatch(pattern, v), (i: nat, v: string) => PatternMismatch(elemName, attrName, v, i, pattern, ix))
  }

  /** A pattern facet that is present, non-empty and compiles. */
  predicate UsablePattern(re: RegexOracle, info: AttrInfo)
  {
    info.pattern.Some? && info.pattern.value != "" && re.compiles(info.pattern.value)
  }

  /** `_check_pattern`: skipped without a usable pattern. */
  function PatternReports(re: RegexOracle, elemName: string, attrName: string, info: AttrInfo, values: seq<string>, ix: LineIndex): (r: seq<ValidationError>)
    ensures !UsablePattern(re, info) ==> r == []
    ensures UsablePattern(re, info) ==> r == PatternViolations(re, elemName, attrName, info.pattern.value, values, ix)
    ensures Tagged(r, Ids, {Error, Info})
  {
    if !UsablePattern(re, info) then []
    else
      var r := PatternViolations(re, elemName, attrName, info.pattern.value, values, ix);
      assert forall i :: 0 <= i < |r| ==> r[i] in r;
      r
  }

  /**
   One `attributes` entry of a known element: skipped when the schema does
   not declare the attribute or no values are listed; otherwise the
   enumeration sub-check and the pattern sub-check, independently.
   */
  function AttributeValueErrors(re: RegexOracle, s: AknSchema, ix: LineIndex, elemName: string, attrName: string, ar: AttributeRestriction): (r: seq<ValidationError>)
    ensures AttrByName(GetAttributes(s, elemName), attrName).None? || ar.values == [] ==> r == []
    ensures AttrByName(GetAttributes(s, elemName), attrName).Some? && ar.values != [] ==>
      var info := AttrByName(GetAttributes(s, elemName), attrName).value;
      r == EnumReports(elemName, attrName, info, ar.values, ix) + PatternReports(re, elemName, attrName, info, ar.values, ix)
    ensures Tagged(r, Ids, {Error, Info})
  {
    match AttrByName(GetAttributes(s, elemName), attrName)
    case None => []
    case Some(info) =>
      if ar.values == [] then []
      else
        var a := EnumReports(elemName, attrName, info, ar.values, ix);
        var b := PatternReports(re, elemName, attrName, info, ar.values, ix);
        TaggedConcat(a, b, Ids, {Error, Info});
        a + b
  }

  /** `_check_attribute_values` for one element: nothing for an unknown element. */
  function ElementValueErrors(re: RegexOracle, s: AknSchema, ix: LineIndex, elemName: string, rs: ElementRestriction): (r: seq<ValidationError>)
    ensures !HasElement(s, elemName) ==> r == []
    ensures forall e :: e in r <==>
      HasElement(s, elemName) &&
      exists i :: 0 <= i < |rs.attributes| && e in AttributeValueErrors(re, s, ix, elemName, rs.attributes[i].key, rs.attributes[i].val)
    ensures Tagged(r, Ids, {Error, Info})
  {
    if !HasElement(s, elemName) then []
    else
      var f := (i: nat, a: Entry<AttributeRestriction>) => AttributeValueErrors(re, s, ix, elemName, a.key, a.val);
      TaggedGather(rs.attributes, f, Ids, {Error, Info}, 0);
      Gather(rs.attributes, f)
  }

  /** `validate`. */
  function Validate(re: RegexOracle, p: ProfileDocument, s: AknSchema, ix: LineIndex): (r: seq<ValidationError>)
    ensures forall e :: e in r <==>
      exists i :: 0 <= i < |p.elements| && e in ElementValueErrors(re, s, ix, p.elements[i].key, p.elements[i].val)
    ensures Tagged(r, Ids, {Error, Info})
  {
    var f := (i: nat, en: Entry<ElementRestriction>) => ElementValueErrors(re, s, ix, en.key, en.val);
    TaggedGather(p.elements, f, Ids, {Error, Info}, 0);
    Gather(p.elements, f)
  }
}
