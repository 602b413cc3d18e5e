/**
 Rule category 2, structure (`validation/rules_structure.py`): the listed
 children must be schema children of their element, and a `structure`
 list must be a containment chain that starts below the element.
 Names the schema does not know are left to the vocabulary rules.
 */
module RulesStructure {
  import opened Wrappers
  import opened Strings
  import opened Dicts
  import opened Errors
  import opened Profile
  import opened Schema
  import opened YamlParser
  import opened RuleKit

  const Ids: set<string> := {"structure.invalid-child", "structure.invalid-structure-root", "structure.invalid-structure-chain"}

  // Message wordings, with `{...}` marking the interpolated arguments.
  const InvalidChildWording: string := "<{elem}> cannot contain <{child}> according to the AKN schema. Valid children: {valid}"
  const InvalidRootWording: string := "<{first}> is not a valid child of <{elem}>, so it cannot be the first level of the structure hierarchy"
  const InvalidChainWording: string := "<{parent}> cannot contain <{child}> according to the AKN schema, so the structure chain '{parent} > {child}' is invalid"

  /** `set(schema.get_children(name))`. */
  function ChildSet(s: AknSchema, name: string): (r: set<string>)
    ensures forall c :: c in r <==> c in GetChildren(s, name)
  {
    set c | c in GetChildren(s, name)
  }

  /** `parent` may directly contain `child`. */
  predicate CanContain(s: AknSchema, parent: string, child: string)
  {
    child in GetChildren(s, parent)
  }

  /** A child the schema knows but the element may not contain. */
  predicate Misplaced(s: AknSchema, elemName: string, childName: string)
  {
    HasElement(s, childName) && !CanContain(s, elemName, childName)
  }

  function InvalidChild(elemName: string, childName: string, valid: set<string>, ix: LineIndex): (e: ValidationError)
    ensures e.ruleId == "structure.invalid-child" && e.severity == Error
  {
    var path := Dot(Dot(ElemPath(elemName), "children"), childName);
    Finding("structure.invalid-child", path,
      Message(InvalidChildWording, [elemName, childName, PyList(SortSet(valid))]),
      Error, GetLine(ix, path))
  }

  /** The known children of `rs` that `elemName` may not contain, in order. */
  function MisplacedChildren(s: AknSchema, ix: LineIndex, elemName: string, rs: ElementRestriction): (r: seq<ValidationError>)
    ensures forall e :: e in r <==>
      exists i :: (0 <= i < |rs.children| && Misplaced(s, elemName, rs.children[i].key) &&
        e == InvalidChild(elemName, rs.children[i].key, ChildSet(s, elemName), ix))
    ensures forall e :: e in r ==> e.ruleId == "structure.invalid-child" && e.severity == Error
  {
    var valid := ChildSet(s, elemName);
    Select(rs.children,
      (i: nat, c: Entry<Option<string>>) => Misplaced(s, elemName, c.key),
      (i: nat, c: Entry<Option<string>>) => InvalidChild(elemName, c.key, valid, ix))
  }

  /** `_check_children` for one entry: nothing for an unknown element. */
  function ChildErrors(s: AknSchema, ix: LineIndex, elemName: string, rs: ElementRestriction): (r: seq<ValidationError>)
    ensures !HasElement(s, elemName) ==> r == []
    ensures HasElement(s, elemName) ==> r == MisplacedChildren(s, ix, elemName, rs)
    ensures forall e :: e in r ==> e.ruleId == "structure.invalid-child" && e.severity == Error
  {
    if !HasElement(s, elemName) then [] else MisplacedChildren(s, ix, elemName, rs)
  }

  function StructurePath(elemName: string, i: nat): string
  {
    At(Dot(ElemPath(elemName), "structure"), i)
  }

  function InvalidRoot(elemName: string, first: string, ix: LineIndex): (e: ValidationError)
    ensures e.ruleId == "structure.invalid-structure-root" && e.severity == Error
  {
    var path := StructurePath(elemName, 0);
    Finding("structure.invalid-structure-root", path,
      Message(InvalidRootWording, [first, elemName]),
      Error, GetLine(ix, path))
  }

  /** The report for the pair `(parent, child)` at positions `i - 1` and `i`. */
  function InvalidChain(elemName: string, parent: string, child: string, i: nat, ix: LineIndex): (e: ValidationError)
    ensures e.ruleId == "structure.invalid-structure-chain" && e.severity == Error
  {
    var path := StructurePath(elemName, i);
    Finding("structure.invalid-structure-chain", path,
      Message(InvalidChainWording, [parent, child]),
      Error, GetLine(ix, path))
  }

  /** The pair at positions `i` and `i + 1` is known on both sides and not parent to child. */
  predicate BrokenLink(s: AknSchema, st: seq<string>, i: nat)
    requires i + 1 < |st|
  {
    HasElement(s, st[i]) && HasElement(s, st[i + 1]) && !CanContain(s, st[i], st[i + 1])
  }

  /** The reports for the broken links from position `from` on, in order. */
  function ChainErrors(s: AknSchema, ix: LineIndex, elemName: string, st: seq<string>, from: nat): (r: seq<ValidationError>)
    requires from <= |st|
    ensures forall e :: e in r <==>
      exists i :: (from <= i < |st| - 1 && BrokenLink(s, st, i) && e == InvalidChain(elemName, st[i], st[i + 1], i + 1, ix))
    ensures forall e :: e in r ==> e.ruleId == "structure.invalid-structure-chain" && e.severity == Error
    decreases |st| - from
  {
    if from + 1 >= |st| then []
    else
      var rest := ChainErrors(s, ix, elemName, st, from + 1);
      if BrokenLink(s, st, from) then [InvalidChain(elemName, st[from], st[from + 1], from + 1, ix)] + rest else rest
  }

  /**
   The structure reports for a non-empty list under a known element: the
   root report when the first entry is a known element the owner may not
   contain, then one report per broken link, at the index of the link's
   child.
   */
  function StructureReports(s: AknSchema, ix: LineIndex, elemName: string, st: seq<string>): (r: seq<ValidationError>)
    requires st != []
    ensures InvalidRoot(elemName, st[0], ix) in r <==> HasElement(s, st[0]) && !CanContain(s, elemName, st[0])
    ensures forall i :: 0 <= i < |st| - 1 ==>
      (InvalidChain(elemName, st[i], st[i + 1], i + 1, ix) in r <==> BrokenLink(s, st, i))
    ensures forall e :: e in r ==> e.ruleId in {"structure.invalid-structure-root", "structure.invalid-structure-chain"} && e.severity == Error
  {
    var root := if HasElement(s, st[0]) && !CanContain(s, elemName, st[0]) then [InvalidRoot(elemName, st[0], ix)] else [];
    var chain := ChainErrors(s, ix, elemName, st, 0);
    forall i | 0 <= i < |st| - 1
      ensures InvalidChain(elemName, st[i], st[i + 1], i + 1, ix) in chain <==> BrokenLink(s, st, i)
    {
      ChainReportAt(s, ix, elemName, st, i);
    }
    root + chain
  }

  /** `_check_structure` for one entry: nothing for an empty list or an unknown element. */
  function StructureErrors(s: AknSchema, ix: LineIndex, elemName: string, rs: ElementRestriction): (r: seq<ValidationError>)
    ensures rs.structure == [] || !HasElement(s, elemName) ==> r == []
    ensures rs.structure != [] && HasElement(s, elemName) ==> r == StructureReports(s, ix, elemName, rs.structure)
    ensures forall e :: e in r ==> e.ruleId in {"structure.invalid-structure-root", "structure.invalid-structure-chain"} && e.severity == Error
  {
    if rs.structure == [] || !HasElement(s, elemName) then [] else StructureReports(s, ix, elemName, rs.structure)
  }

  /** Chain reports are told apart by their path, which names the position. */
  lemma ChainReportAt(s: AknSchema, ix: LineIndex, elemName: string, st: seq<string>, i: nat)
    requires st != [] && i < |st| - 1
    ensures InvalidChain(elemName, st[i], st[i + 1], i + 1, ix) in ChainErrors(s, ix, elemName, st, 0) <==> BrokenLink(s, st, i)
  {
    var e := InvalidChain(elemName, st[i], st[i + 1], i + 1, ix);
    if e in ChainErrors(s, ix, elemName, st, 0) {
      var j :| 0 <= j < |st| - 1 && BrokenLink(s, st, j) && e == InvalidChain(elemName, st[j], st[j + 1], j + 1, ix);
      AtInjective(Dot(ElemPath(elemName), "structure"), i + 1, j + 1);
    }
  }

  function CheckChildren(p: ProfileDocument, s: AknSchema, ix: LineIndex): (r: seq<ValidationError>)
    ensures forall e :: e in r <==>
      exists i :: 0 <= i < |p.elements| && e in ChildErrors(s, ix, p.elements[i].key, p.elements[i].val)
    ensures forall e :: e in r ==> e.ruleId == "structure.invalid-child" && e.severity == Error
  {
    Gather(p.elements, (i: nat, en: Entry<ElementRestriction>) => ChildErrors(s, ix, en.key, en.val))
  }

  function CheckStructure(p: ProfileDocument, s: AknSchema, ix: LineIndex): (r: seq<ValidationError>)
    ensures forall e :: e in r <==>
      exists i :: 0 <= i < |p.elements| && e in StructureErrors(s, ix, p.elements[i].key, p.elements[i].val)
    ensures forall e :: e in r ==> e.ruleId in {"structure.invalid-structure-root", "structure.invalid-structure-chain"} && e.severity == Error
  {
    Gather(p.elements, (i: nat, en: Entry<ElementRestriction>) => StructureErrors(s, ix, en.key, en.val))
  }

  /** `validate`: containment reports, then structure reports; every one an ERROR. */
  function Validate(p: ProfileDocument, s: AknSchema, ix: LineIndex): (r: seq<ValidationError>)
    ensures Tagged(r, Ids, {Error})
  {
    var r := CheckChildren(p, s, ix) + CheckStructure(p, s, ix);
    assert forall i :: 0 <= i < |r| ==> r[i] in CheckChildren(p, s, ix) || r[i] in CheckStructure(p, s, ix);
    r
  }
}
