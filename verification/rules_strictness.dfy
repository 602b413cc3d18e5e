/**
 Rule category 5, strictness (`validation/rules_strictness.py`): a
 profile may tighten the schema but never loosen it. Required children
 and attributes must be listed, the required-child chains of the declared
 document types must be covered by `elements`, cardinalities may only
 narrow, required attributes must stay required, and every listed child
 needs an element restriction of its own. Every report is an ERROR.

 The module can raise: a cardinality such as `a..1` makes `int()` fail,
 and the exception leaves `validate`. Its result is therefore an
 `Option`, with `None` for the raised exception.
 */
module RulesStrictness {
  import opened Wrappers
  import opened Strings
  import opened Dicts
  import opened Errors
  import opened Profile
  import opened Schema
  import opened YamlParser
  import opened RuleKit

  const Ids: set<string> := {
    "strictness.missing-required-child", "strictness.missing-required-attribute",
    "strictness.missing-required-element", "strictness.loosened-child-cardinality",
    "strictness.loosened-attribute-required", "strictness.undeclared-child-element"}

  // Message wordings, with `{...}` marking the interpolated arguments.
  const MissingChildWording: string := "<{child}> is required by the XSD inside <{elem}> but is not listed in 'children'. The profile is loosening the schema."
  const MissingAttributeWording: string := "'{attr}' is XSD-required on <{elem}> but is not listed under 'attributes'. The profile is loosening the schema."
  const MissingElementWording: string := "<{elem}> is on the required-child chain of document type '{dt}' but is not declared in the profile's 'elements' section."
  const LowMinWording: string := "Profile sets min_occurs=" + "{pmin} for <{child}> inside <{elem}>, but the XSD requires at least {xmin}. The profile is loosening the schema."
  const HighMaxWording: string := "Profile sets max_occurs=" + "{pmax} for <{child}> inside <{elem}>, but the XSD allows at most {xmax}. The profile is loosening the schema."
  const AttributeRequiredWording: string := "'{attr}' is required by the XSD on <{elem}> but the profile does not mark it as required. The profile is loosening the schema."
  const UndeclaredWording: string := "'{child}' is listed as a child of <{elem}> but has no element definition in the profile. Add it to 'elements' to keep the profile valid."

  // ---------------------------------------------------------------------
  // Required children and attributes.
  // ---------------------------------------------------------------------

  /** The names of the children the schema requires inside `elemName`. */
  function RequiredChildNames(s: AknSchema, elemName: string): (r: set<string>)
    ensures forall c :: c in r <==> exists ci :: ci in GetRequiredChildren(s, elemName) && ci.name == c
  {
    set ci | ci in GetRequiredChildren(s, elemName) :: ci.name
  }

  /** The names of the attributes the schema requires on `elemName`. */
  function RequiredAttrNames(s: AknSchema, elemName: string): (r: set<string>)
    ensures forall a :: a in r <==> exists ai :: ai in GetRequiredAttributes(s, elemName) && ai.name == a
  {
    set ai | ai in GetRequiredAttributes(s, elemName) :: ai.name
  }

  /** `req_children - listed_children`. */
  function MissingChildNames(s: AknSchema, elemName: string, rs: ElementRestriction): (r: set<string>)
    ensures forall c :: c in r <==> c in RequiredChildNames(s, elemName) && c !in Keys(rs.children)
  {
    RequiredChildNames(s, elemName) - KeySet(rs.children)
  }

  /** `req_attrs - listed_attrs`. */
  function MissingAttrNames(s: AknSchema, elemName: string, rs: ElementRestriction): (r: set<string>)
    ensures forall a :: a in r <==> a in RequiredAttrNames(s, elemName) && a !in Keys(rs.attributes)
  {
    RequiredAttrNames(s, elemName) - KeySet(rs.attributes)
  }

  function MissingChild(elemName: string, childName: string, ix: LineIndex): (e: ValidationError)
    ensures e.ruleId == "strictness.missing-required-child" && e.severity == Error
  {
    var path := Dot(ElemPath(elemName), "children");
    Finding("strictness.missing-required-child", path, Message(MissingChildWording, [childName, elemName]), Error, GetLine(ix, path))
  }

  function MissingAttribute(elemName: string, attrName: string, ix: LineIndex): (e: ValidationError)
    ensures e.ruleId == "strictness.missing-required-attribute" && e.severity == Error
  {
    var path := Dot(ElemPath(elemName), "attributes");
    Finding("strictness.missing-required-attribute", path, Message(MissingAttributeWording, [attrName, elemName]), Error, GetLine(ix, path))
  }

  /** One report per required child the `children` mapping leaves out, by name. */
  function MissingChildReports(s: AknSchema, ix: LineIndex, elemName: string, rs: ElementRestriction): (r: seq<ValidationError>)
    ensures forall e :: e in r <==> exists c :: c in MissingChildNames(s, elemName, rs) && e == MissingChild(elemName, c, ix)
    ensures (forall c :: c in RequiredChildNames(s, elemName) ==> c in Keys(rs.children)) ==> r == []
    ensures Tagged(r, Ids, {Error})
  {
    var missing := MissingChildNames(s, elemName, rs);
    assert (forall c :: c in RequiredChildNames(s, elemName) ==> c in Keys(rs.children)) ==> missing == {};
    ChildReportsContents(elemName, missing, ix);
    SortedReports(missing, ChildReport(elemName, ix))
  }

  /** `MissingChild` for a fixed element, as a function of the name. */
  function ChildReport(elemName: string, ix: LineIndex): string -> ValidationError
  {
    c => MissingChild(elemName, c, ix)
  }

  lemma ChildReportsContents(elemName: string, missing: set<string>, ix: LineIndex)
    ensures var r := SortedReports(missing, ChildReport(elemName, ix));
      && (forall e :: e in r <==> exists c :: c in missing && e == MissingChild(elemName, c, ix))
      && Tagged(r, Ids, {Error})
  {
    var mk := ChildReport(elemName, ix);
    var r := SortedReports(missing, mk);
    forall e ensures e in r <==> exists c :: c in missing && e == MissingChild(elemName, c, ix) {
      if e in r {
        var c :| c in missing && e == mk(c);
      }
      if exists c :: c in missing && e == MissingChild(elemName, c, ix) {
        var c :| c in missing && e == MissingChild(elemName, c, ix);
        assert e == mk(c);
      }
    }
    forall i | 0 <= i < |r| ensures r[i].ruleId in Ids && r[i].severity == Error {
      assert r[i] in r;
    }
  }

  /** `_check_required_children` for one entry: skipped without a `children` mapping or for an unknown element. */
  function RequiredChildErrors(s: AknSchema, ix: LineIndex, elemName: string, rs: ElementRestriction): (r: seq<ValidationError>)
    ensures rs.children == [] || !HasElement(s, elemName) ==> r == []
    ensures rs.children != [] && HasElement(s, elemName) ==> r == MissingChildReports(s, ix, elemName, rs)
    ensures Tagged(r, Ids, {Error})
  {
    if rs.children == [] || !HasElement(s, elemName) then [] else MissingChildReports(s, ix, elemName, rs)
  }

  /** One report per required attribute the `attributes` mapping leaves out, by name. */
  function MissingAttributeReports(s: AknSchema, ix: LineIndex, elemName: string, rs: ElementRestriction): (r: seq<ValidationError>)
    ensures forall e :: e in r <==> exists a :: a in MissingAttrNames(s, elemName, rs) && e == MissingAttribute(elemName, a, ix)
    ensures (forall a :: a in RequiredAttrNames(s, elemName) ==> a in Keys(rs.attributes)) ==> r == []
    ensures Tagged(r, Ids, {Error})
  {
    var missing := MissingAttrNames(s, elemName, rs);
    assert (forall a :: a in RequiredAttrNames(s, elemName) ==> a in Keys(rs.attributes)) ==> missing == {};
    AttributeReportsContents(elemName, missing, ix);
    SortedReports(missing, AttributeReport(elemName, ix))
  }

  /** `MissingAttribute` for a fixed element, as a function of the name. */
  function AttributeReport(elemName: string, ix: LineIndex): string -> ValidationError
  {
    a => MissingAttribute(elemName, a, ix)
  }

  lemma AttributeReportsContents(elemName: string, missing: set<string>, ix: LineIndex)
    ensures var r := SortedReports(missing, AttributeReport(elemName, ix));
      && (forall e :: e in r <==> exists a :: a in missing && e == MissingAttribute(elemName, a, ix))
      && Tagged(r, Ids, {Error})
  {
    var mk := AttributeReport(elemName, ix);
    var r := SortedReports(missing, mk);
    forall e ensures e in r <==> exists a :: a in missing && e == MissingAttribute(elemName, a, ix) {
      if e in r {
        var a :| a in missing && e == mk(a);
      }
      if exists a :: a in missing && e == MissingAttribute(elemName, a, ix) {
        var a :| a in missing && e == MissingAttribute(elemName, a, ix);
        assert e == mk(a);
      }
    }
    forall i | 0 <= i < |r| ensures r[i].ruleId in Ids && r[i].severity == Error {
      assert r[i] in r;
    }
  }

  /** `_check_required_attributes` for one entry: skipped without an `attributes` mapping or for an unknown element. */
  function RequiredAttributeErrors(s: AknSchema, ix: LineIndex, elemName: string, rs: ElementRestriction): (r: seq<ValidationError>)
    ensures rs.attributes == [] || !HasElement(s, elemName) ==> r == []
    ensures rs.attributes != [] && HasElement(s, elemName) ==> r == MissingAttributeReports(s, ix, elemName, rs)
    ensures Tagged(r, Ids, {Error})
  {
    if rs.attributes == [] || !HasElement(s, elemName) then [] else MissingAttributeReports(s, ix, elemName, rs)
  }

  // ---------------------------------------------------------------------
  // Required-chain coverage.
  // ---------------------------------------------------------------------

  /**
   What the walk returns relative to what it was given: `visited` only
   grows, and `missing` lists, once each, exactly the newly visited names
   that are not declared.
   */
  ghost predicate WalkResult(declared: set<string>, visited: set<string>, missing: seq<string>, visited': set<string>)
  {
    visited <= visited' &&
    (forall x :: x in missing <==> x in visited' - visited && x !in declared) &&
    (forall i, j :: 0 <= i < j < |missing| ==> missing[i] != missing[j])
  }

  lemma WalkResultConcat(declared: set<string>, v0: set<string>, m1: seq<string>, v1: set<string>, m2: seq<string>, v2: set<string>)
    requires WalkResult(declared, v0, m1, v1) && WalkResult(declared, v1, m2, v2)
    ensures WalkResult(declared, v0, m1 + m2, v2)
  {
    forall i, j | 0 <= i < j < |m1 + m2| ensures (m1 + m2)[i] != (m1 + m2)[j] {
      if i < |m1| && j >= |m1| {
        assert (m1 + m2)[i] in m1 && (m1 + m2)[j] in m2;
      }
    }
  }

  /**
   `_walk_required_chain`: the undeclared names reachable from `name`
   through required children, in discovery order. The Python set
   `visited` is shared by all calls; here it is threaded through them.
   */
  function WalkRequiredChain(s: AknSchema, name: string, declared: set<string>, visited: set<string>): (r: (seq<string>, set<string>))
    ensures WalkResult(declared, visited, r.0, r.1)
    ensures ClosedOver(s, visited, r.1)
    ensures name in r.1
    ensures name in visited ==> r.1 == visited
    decreases |SchemaNames(s) - visited|, 1
  {
    if name in visited then ([], visited)
    else
      var v := visited + {name};
      var here := if name !in declared then [name] else [];
      match GetElementInfo(s, name)
      case None => (here, v)
      case Some(info) =>
        assert SchemaNames(s) - v == (SchemaNames(s) - visited) - {name};
        var (rest, v') := WalkChildren(s, info.children, 0, declared, v);
        WalkResultConcat(declared, visited, here, v, rest, v');
        (here + rest, v')
  }

  /** The loop over `info.children` from position `j` on, recursing into the required ones. */
  function WalkChildren(s: AknSchema, cs: seq<ChildInfo>, j: nat, declared: set<string>, visited: set<string>): (r: (seq<string>, set<string>))
    requires j <= |cs|
    ensures WalkResult(declared, visited, r.0, r.1)
    ensures ClosedOver(s, visited, r.1)
    ensures forall k :: j <= k < |cs| && cs[k].required ==> cs[k].name in r.1
    decreases |SchemaNames(s) - visited| + 1, 0, |cs| - j
  {
    if j == |cs| then ([], visited)
    else if !cs[j].required then WalkChildren(s, cs, j + 1, declared, visited)
    else
      var (m1, v1) := WalkRequiredChain(s, cs[j].name, declared, visited);
      SubsetCard(SchemaNames(s) - v1, SchemaNames(s) - visited);
      var (m2, v2) := WalkChildren(s, cs, j + 1, declared, v1);
      WalkResultConcat(declared, visited, m1, v1, m2, v2);
      (m1 + m2, v2)
  }

  /** The walk visits nothing outside a closed set that holds its start. */
  lemma {:induction false} WalkStaysWithin(s: AknSchema, name: string, declared: set<string>, visited: set<string>, vs: set<string>)
    requires name in vs && Closed(s, vs)
    ensures WalkRequiredChain(s, name, declared, visited).1 - visited <= vs
    decreases |SchemaNames(s) - visited|, 1
  {
    if name !in visited {
      var v := visited + {name};
      match GetElementInfo(s, name)
      case None =>
      case Some(info) =>
        assert SchemaNames(s) - v == (SchemaNames(s) - visited) - {name};
        WalkChildrenStaysWithin(s, info.children, 0, declared, v, vs);
    }
  }

  lemma {:induction false} WalkChildrenStaysWithin(s: AknSchema, cs: seq<ChildInfo>, j: nat, declared: set<string>, visited: set<string>, vs: set<string>)
    requires j <= |cs| && Closed(s, vs)
    requires forall k :: j <= k < |cs| && cs[k].required ==> cs[k].name in vs
    ensures WalkChildren(s, cs, j, declared, visited).1 - visited <= vs
    decreases |SchemaNames(s) - visited| + 1, 0, |cs| - j
  {
    if j < |cs| {
      if !cs[j].required {
        WalkChildrenStaysWithin(s, cs, j + 1, declared, visited, vs);
      } else {
        var v1 := WalkRequiredChain(s, cs[j].name, declared, visited).1;
        WalkStaysWithin(s, cs[j].name, declared, visited, vs);
        SubsetCard(SchemaNames(s) - v1, SchemaNames(s) - visited);
        WalkChildrenStaysWithin(s, cs, j + 1, declared, v1, vs);
      }
    }
  }

  /**
   Started from nothing visited, the walk reports exactly the names on
   the required-child chain of `root` that the profile does not declare.
   */
  lemma WalkFindsExactlyTheChain(s: AknSchema, root: string, declared: set<string>, x: string)
    ensures x in WalkRequiredChain(s, root, declared, {}).0 <==> OnRequiredChain(s, root, x) && x !in declared
  {
    var r := WalkRequiredChain(s, root, declared, {});
    assert Closed(s, r.1);
    if OnRequiredChain(s, root, x) {
      assert x in r.1;
    }
    if x in r.0 {
      forall vs: set<string> | root in vs && Closed(s, vs) ensures x in vs {
        WalkStaysWithin(s, root, declared, {}, vs);
      }
    }
  }

  function MissingElement(elemName: string, dt: string, ix: LineIndex): (e: ValidationError)
    ensures e.ruleId == "strictness.missing-required-element" && e.severity == Error
  {
    Finding("strictness.missing-required-element", ElementsPath, Message(MissingElementWording, [elemName, dt]), Error, GetLine(ix, ElementsPath))
  }

  /**
   `_check_required_chain` for one document type: the walk's names in
   ascending order. They are distinct, so sorting the list is sorting
   its set.
   */
  function ChainReports(s: AknSchema, ix: LineIndex, dt: string, declared: set<string>): (r: seq<ValidationError>)
    ensures forall e :: e in r <==>
      exists x :: x in WalkRequiredChain(s, dt, declared, {}).0 && e == MissingElement(x, dt, ix)
    ensures |r| == |WalkRequiredChain(s, dt, declared, {}).0|
    ensures Tagged(r, Ids, {Error})
  {
    var missing := WalkRequiredChain(s, dt, declared, {}).0;
    var m := set x | x in missing;
    DistinctCard(missing);
    var mk := (x: string) => MissingElement(x, dt, ix);
    var r := SortedReports(m, mk);
    forall e ensures e in r <==> exists x :: x in missing && e == MissingElement(x, dt, ix) {
      if e in r {
        var x :| x in m && e == mk(x);
      }
      if exists x :: x in missing && e == MissingElement(x, dt, ix) {
        var x :| x in missing && e == MissingElement(x, dt, ix);
        assert x in m && e == mk(x);
      }
    }
    forall i | 0 <= i < |r| ensures r[i].ruleId in Ids && r[i].severity == Error {
      assert r[i] in r;
    }
    r
  }

  /** A list without repetitions has as many members as elements. */
  lemma {:induction false} DistinctCard(xs: seq<string>)
    requires forall i, j :: 0 <= i < j < |xs| ==> xs[i] != xs[j]
    ensures |set x | x in xs| == |xs|
  {
    if xs != [] {
      var rest := xs[1..];
      DistinctCard(rest);
      assert (set x | x in xs) == (set x | x in rest) + {xs[0]};
      assert xs[0] !in rest by {
        forall k | 0 <= k < |rest| ensures rest[k] != xs[0] {
          assert rest[k] == xs[k + 1];
        }
      }
    }
  }

  function CheckRequiredChain(p: ProfileDocument, s: AknSchema, ix: LineIndex): (r: seq<ValidationError>)
    ensures forall e :: e in r <==>
      exists i :: (0 <= i < |p.documentTypes| && HasElement(s, p.documentTypes[i]) &&
        e in ChainReports(s, ix, p.documentTypes[i], KeySet(p.elements)))
    ensures Tagged(r, Ids, {Error})
  {
    var declared := KeySet(p.elements);
    var f := (i: nat, dt: string) => if HasElement(s, dt) then ChainReports(s, ix, dt, declared) else [];
    TaggedGather(p.documentTypes, f, Ids, {Error}, 0);
    Gather(p.documentTypes, f)
  }

  // ---------------------------------------------------------------------
  // Child cardinality.
  // ---------------------------------------------------------------------

  /**
   `_parse_cardinality`: `(min, max)` with `None` for `*`, and `(0, None)`
   unless the text splits into exactly two parts at `..`. `None` is the
   `ValueError` of `int()`.
   */
  function ParseCardinality(card: string): (r: Option<(int, Option<int>)>)
    ensures |Split(card, "..")| != 2 ==> r == Some((0, None))
    ensures |Split(card, "..")| == 2 && r.Some? ==> Some(r.value.0) == ParseInt(Split(card, "..")[0])
  {
    var parts := Split(card, "..");
    if |parts| != 2 then Some((0, None))
    else
      match ParseInt(parts[0])
      case None => None
      case Some(lo) =>
        if parts[1] == "*" then Some((lo, None))
        else
          match ParseInt(parts[1])
          case None => None
          case Some(hi) => Some((lo, Some(hi)))
  }

  /** `str(i)` holds no `.`. */
  lemma NoDotInIntToString(i: int)
    ensures forall k :: 0 <= k < |IntToString(i)| ==> IntToString(i)[k] != '.'
    ensures |IntToString(i)| > 0 && IntToString(i)[0] != '*'
  {
    var d := NatToString(if i < 0 then -i else i);
    assert forall k :: 0 <= k < |d| ==> IsDigit(d[k]);
    if i < 0 {
      assert forall k :: 1 <= k < |IntToString(i)| ==> IntToString(i)[k] == d[k - 1];
    }
  }

  lemma DotsAt(s: string, j: nat)
    requires OccursAt(s, "..", j)
    ensures j + 1 < |s| && s[j] == '.' && s[j + 1] == '.'
  {
    assert s[j..j + 2][0] == s[j] && s[j..j + 2][1] == s[j + 1];
  }

  /** A text without `.` holds no `..`. */
  lemma NoDots(t: string)
    requires forall k :: 0 <= k < |t| ==> t[k] != '.'
    ensures forall j :: 0 <= j <= |t| ==> !OccursAt(t, "..", j)
  {
    forall j | 0 <= j <= |t| && OccursAt(t, "..", j) ensures false {
      DotsAt(t, j);
    }
  }

  /** `a + ".." + b` splits at its only `..` when neither side holds a `.`. */
  lemma SplitDotted(a: string, b: string)
    requires forall k :: 0 <= k < |a| ==> a[k] != '.'
    requires |b| > 0 && forall k :: 0 <= k < |b| ==> b[k] != '.'
    ensures Split(a + ".." + b, "..") == [a, b]
  {
    var s := a + ".." + b;
    forall j | 0 <= j <= |s| && j != |a| ensures !OccursAt(s, "..", j) {
      if j + 1 < |s| {
        if j < |a| {
          assert s[j] == a[j];
        } else if j == |a| + 1 {
          assert s[j + 1] == b[0];
        } else {
          assert s[j] == b[j - |a| - 2];
        }
      }
      if OccursAt(s, "..", j) {
        DotsAt(s, j);
      }
    }
    NoDots(b);
    SplitAtOnlyOccurrence(a, "..", b);
    SplitWithoutOccurrence(b, "..");
  }

  /** Parsing reads back what `ChildInfo.cardinality` writes. */
  lemma CardinalityRoundTrip(lo: int, hi: Option<int>)
    ensures ParseCardinality(FormatCardinality(lo, hi)) == Some((lo, hi))
  {
    NoDotInIntToString(lo);
    var b := if hi.None? then "*" else IntToString(hi.value);
    if hi.Some? {
      NoDotInIntToString(hi.value);
      ParseIntRoundTrip(hi.value);
      assert b != "*" by {
        assert b[0] != '*';
      }
    }
    SplitDotted(IntToString(lo), b);
    ParseIntRoundTrip(lo);
  }

  function ChildPath(elemName: string, childName: string): string
  {
    Dot(Dot(ElemPath(elemName), "children"), childName)
  }

  function LowMin(elemName: string, childName: string, pmin: int, xmin: int, ix: LineIndex): (e: ValidationError)
    ensures e.ruleId == "strictness.loosened-child-cardinality" && e.severity == Error
  {
    var path := ChildPath(elemName, childName);
    Finding("strictness.loosened-child-cardinality", path,
      Message(LowMinWording, [IntToString(pmin), childName, elemName, IntToString(xmin)]), Error, GetLine(ix, path))
  }

  function HighMax(elemName: string, childName: string, pmax: Option<int>, xmax: int, ix: LineIndex): (e: ValidationError)
    ensures e.ruleId == "strictness.loosened-child-cardinality" && e.severity == Error
  {
    var path := ChildPath(elemName, childName);
    Finding("strictness.loosened-child-cardinality", path,
      Message(HighMaxWording, [if pmax.None? then "*" else IntToString(pmax.value), childName, elemName, IntToString(xmax)]), Error, GetLine(ix, path))
  }

  /** The two cardinality reports are told apart by their wording. */
  lemma LowMinIsNotHighMax(elemName: string, childName: string, pmin: int, xmin: int, pmax: Option<int>, xmax: int, ix: LineIndex)
    ensures LowMin(elemName, childName, pmin, xmin, ix) != HighMax(elemName, childName, pmax, xmax, ix)
  {
    assert LowMinWording[14] == 'i' && HighMaxWording[14] == 'a';
  }

  /** The profile's bounds `(pmin, pmax)` are no looser than the schema child's. */
  predicate WithinSchema(pmin: int, pmax: Option<int>, xc: ChildInfo)
  {
    pmin >= xc.minOccurs && (xc.maxOccurs.None? || (pmax.Some? && pmax.value <= xc.maxOccurs.value))
  }

  /**
   The comparison of the profile's bounds with the schema child's: a
   report for a lowered minimum, then one for a raised or unbounded
   maximum against a bounded schema maximum.
   */
  function CompareBounds(elemName: string, childName: string, pmin: int, pmax: Option<int>, xc: ChildInfo, ix: LineIndex): (r: seq<ValidationError>)
    ensures LowMin(elemName, childName, pmin, xc.minOccurs, ix) in r <==> pmin < xc.minOccurs
    ensures r == [] <==> WithinSchema(pmin, pmax, xc)
    ensures |r| <= 2
    ensures Tagged(r, Ids, {Error})
  {
    var low := if pmin < xc.minOccurs then [LowMin(elemName, childName, pmin, xc.minOccurs, ix)] else [];
    var high := if xc.maxOccurs.Some? && (pmax.None? || pmax.value > xc.maxOccurs.value)
      then [HighMax(elemName, childName, pmax, xc.maxOccurs.value, ix)] else [];
    assert LowMin(elemName, childName, pmin, xc.minOccurs, ix) !in high by {
      if high != [] {
        LowMinIsNotHighMax(elemName, childName, pmin, xc.minOccurs, pmax, xc.maxOccurs.value, ix);
      }
    }
    low + high
  }

  /** One listed child with a cardinality; `None` when the cardinality does not parse. */
  function CardinalityReports(elemName: string, childName: string, card: string, xc: ChildInfo, ix: LineIndex): (r: Option<seq<ValidationError>>)
    ensures r.None? <==> ParseCardinality(card).None?
    ensures r.Some? ==> r.value == CompareBounds(elemName, childName, ParseCardinality(card).value.0, ParseCardinality(card).value.1, xc, ix)
  {
    match ParseCardinality(card)
    case None => None
    case Some((pmin, pmax)) => Some(CompareBounds(elemName, childName, pmin, pmax, xc, ix))
  }

  /** A profile that copies the schema's own cardinality loosens nothing. */
  lemma SchemaCardinalityAccepted(elemName: string, xc: ChildInfo, ix: LineIndex)
    ensures CardinalityReports(elemName, xc.name, ChildCardinality(xc), xc, ix) == Some([])
  {
    CardinalityRoundTrip(xc.minOccurs, xc.maxOccurs);
  }

  /** One `children` entry: skipped without a cardinality or when the schema lacks the child. */
  function ChildCardinalityErrors(s: AknSchema, ix: LineIndex, elemName: string, c: Entry<Option<string>>): (r: Option<seq<ValidationError>>)
    ensures c.val.None? || ChildByName(GetElementInfo(s, elemName).GetOr(EmptyInfo).children, c.key).None? ==> r == Some([])
    ensures c.val.Some? && ChildByName(GetElementInfo(s, elemName).GetOr(EmptyInfo).children, c.key).Some? ==>
      r == CardinalityReports(elemName, c.key, c.val.value, ChildByName(GetElementInfo(s, elemName).GetOr(EmptyInfo).children, c.key).value, ix)
    ensures r.Some? ==> Tagged(r.value, Ids, {Error})
  {
    if c.val.None? then Some([])
    else
      match ChildByName(GetElementInfo(s, elemName).GetOr(EmptyInfo).children, c.key)
      case None => Some([])
      case Some(xc) => CardinalityReports(elemName, c.key, c.val.value, xc, ix)
  }

  /** An element without attributes or children, standing in for a missing one. */
  const EmptyInfo: ElementInfo := ElementInfo("", "", [], [], [], "", "", [])

  /** `_check_child_cardinality` for one entry: skipped without a `children` mapping or for an unknown element. */
  function ElementCardinalityErrors(s: AknSchema, ix: LineIndex, elemName: string, rs: ElementRestriction): (r: Option<seq<ValidationError>>)
    ensures rs.children == [] || !HasElement(s, elemName) ==> r == Some([])
    ensures HasElement(s, elemName) ==> (r.None? <==> exists i :: 0 <= i < |rs.children| && ChildCardinalityErrors(s, ix, elemName, rs.children[i]).None?)
    ensures r.Some? ==> Tagged(r.value, Ids, {Error})
  {
    if rs.children == [] || !HasElement(s, elemName) then Some([])
    else
      var f := (i: nat, c: Entry<Option<string>>) => ChildCardinalityErrors(s, ix, elemName, c);
      TaggedGatherOpt(rs.children, f, Ids, {Error}, 0);
      GatherOpt(rs.children, f, 0)
  }

  function CheckChildCardinality(p: ProfileDocument, s: AknSchema, ix: LineIndex): (r: Option<seq<ValidationError>>)
    ensures r.None? <==> exists i :: 0 <= i < |p.elements| && ElementCardinalityErrors(s, ix, p.elements[i].key, p.elements[i].val).None?
    ensures r.Some? ==> Tagged(r.value, Ids, {Error})
  {
    var f := (i: nat, en: Entry<ElementRestriction>) => ElementCardinalityErrors(s, ix, en.key, en.val);
    TaggedGatherOpt(p.elements, f, Ids, {Error}, 0);
    GatherOpt(p.elements, f, 0)
  }

  // ---------------------------------------------------------------------
  // Attribute required-ness and undeclared children.
  // ---------------------------------------------------------------------

  function AttributeNotRequired(elemName: string, attrName: string, ix: LineIndex): (e: ValidationError)
    ensures e.ruleId == "strictness.loosened-attribute-required" && e.severity == Error
  {
    var path := Dot(Dot(ElemPath(elemName), "attributes"), attrName);
    Finding("strictness.loosened-attribute-required", path, Message(AttributeRequiredWording, [attrName, elemName]), Error, GetLine(ix, path))
  }

  /** The schema requires `attrName` on the element while the profile's entry does not. */
  predicate Unrequired(s: AknSchema, elemName: string, attrName: string, ar: AttributeRestriction)
  {
    var xa := AttrByName(GetAttributes(s, elemName), attrName);
    xa.Some? && xa.value.required && !ar.required
  }

  /** One report per listed attribute the schema requires but the profile leaves optional. */
  function UnrequiredReports(s: AknSchema, ix: LineIndex, elemName: string, rs: ElementRestriction): (r: seq<ValidationError>)
    ensures forall e :: e in r <==>
      exists i :: (0 <= i < |rs.attributes| && Unrequired(s, elemName, rs.attributes[i].key, rs.attributes[i].val) &&
        e == AttributeNotRequired(elemName, rs.attributes[i].key, ix))
    ensures Tagged(r, Ids, {Error})
  {
    var keep := (i: nat, a: Entry<AttributeRestriction>) => Unrequired(s, elemName, a.key, a.val);
    var mk := (i: nat, a: Entry<AttributeRestriction>) => AttributeNotRequired(elemName, a.key, ix);
    var r := Select(rs.attributes, keep, mk);
    assert forall i :: 0 <= i < |rs.attributes| ==>
      keep(i, rs.attributes[i]) == Unrequired(s, elemName, rs.attributes[i].key, rs.attributes[i].val) &&
      mk(i, rs.attributes[i]) == AttributeNotRequired(elemName, rs.attributes[i].key, ix);
    assert Tagged(r, Ids, {Error}) by {
      forall k | 0 <= k < |r| ensures r[k].ruleId in Ids && r[k].severity == Error {
        assert r[k] in r;
      }
    }
    r
  }

  /** `_check_attribute_required` for one entry: nothing for an unknown element. */
  function AttributeRequiredErrors(s: AknSchema, ix: LineIndex, elemName: string, rs: ElementRestriction): (r: seq<ValidationError>)
    ensures !HasElement(s, elemName) ==> r == []
    ensures HasElement(s, elemName) ==> r == UnrequiredReports(s, ix, elemName, rs)
    ensures Tagged(r, Ids, {Error})
  {
    if rs.attributes == [] || !HasElement(s, elemName) then [] else UnrequiredReports(s, ix, elemName, rs)
  }

  function Undeclared(elemName: string, childName: string, ix: LineIndex): (e: ValidationError)
    ensures e.ruleId == "strictness.undeclared-child-element" && e.severity == Error
  {
    var path := ChildPath(elemName, childName);
    Finding("strictness.undeclared-child-element", path, Message(UndeclaredWording, [childName, elemName]), Error, GetLine(ix, path))
  }

  /** One report per listed child the schema knows but `elements` does not restrict. */
  function UndeclaredReports(s: AknSchema, ix: LineIndex, declared: seq<string>, elemName: string, rs: ElementRestriction): (r: seq<ValidationError>)
    ensures forall e :: e in r <==>
      exists i :: (0 <= i < |rs.children| && HasElement(s, rs.children[i].key) && rs.children[i].key !in declared &&
        e == Undeclared(elemName, rs.children[i].key, ix))
    ensures (forall c :: c in Keys(rs.children) ==> c in declared) ==> r == []
    ensures Tagged(r, Ids, {Error})
  {
    var xs := rs.children;
    var keep := (i: nat, c: Entry<Option<string>>) => HasElement(s, c.key) && c.key !in declared;
    var mk := (i: nat, c: Entry<Option<string>>) => Undeclared(elemName, c.key, ix);
    var r := Select(xs, keep, mk);
    assert forall i :: 0 <= i < |xs| ==>
      keep(i, xs[i]) == (HasElement(s, xs[i].key) && xs[i].key !in declared) && mk(i, xs[i]) == Undeclared(elemName, xs[i].key, ix);
    assert Tagged(r, Ids, {Error}) by {
      forall k | 0 <= k < |r| ensures r[k].ruleId in Ids && r[k].severity == Error {
        assert r[k] in r;
      }
    }
    assert (forall c :: c in Keys(xs) ==> c in declared) ==> forall i :: 0 <= i < |xs| ==> xs[i].key in declared by {
      assert forall i :: 0 <= i < |xs| ==> Keys(xs)[i] == xs[i].key;
    }
    r
  }

  /** `_check_undeclared_child_elements` for one entry: nothing for an unknown element. */
  function UndeclaredErrors(s: AknSchema, ix: LineIndex, declared: seq<string>, elemName: string, rs: ElementRestriction): (r: seq<ValidationError>)
    ensures !HasElement(s, elemName) ==> r == []
    ensures HasElement(s, elemName) ==> r == UndeclaredReports(s, ix, declared, elemName, rs)
    ensures Tagged(r, Ids, {Error})
  {
    if rs.children == [] || !HasElement(s, elemName) then [] else UndeclaredReports(s, ix, declared, elemName, rs)
  }

  function CheckRequiredChildren(p: ProfileDocument, s: AknSchema, ix: LineIndex): (r: seq<ValidationError>)
    ensures forall e :: e in r <==> exists i :: 0 <= i < |p.elements| && e in RequiredChildErrors(s, ix, p.elements[i].key, p.elements[i].val)
    ensures Tagged(r, Ids, {Error})
  {
    var f := (i: nat, en: Entry<ElementRestriction>) => RequiredChildErrors(s, ix, en.key, en.val);
    TaggedGather(p.elements, f, Ids, {Error}, 0);
    Gather(p.elements, f)
  }

  function CheckRequiredAttributes(p: ProfileDocument, s: AknSchema, ix: LineIndex): (r: seq<ValidationError>)
    ensures forall e :: e in r <==> exists i :: 0 <= i < |p.elements| && e in RequiredAttributeErrors(s, ix, p.elements[i].key, p.elements[i].val)
    ensures Tagged(r, Ids, {Error})
  {
    var f := (i: nat, en: Entry<ElementRestriction>) => RequiredAttributeErrors(s, ix, en.key, en.val);
    TaggedGather(p.elements, f, Ids, {Error}, 0);
    Gather(p.elements, f)
  }

  function CheckAttributeRequired(p: ProfileDocument, s: AknSchema, ix: LineIndex): (r: seq<ValidationError>)
    ensures forall e :: e in r <==> exists i :: 0 <= i < |p.elements| && e in AttributeRequiredErrors(s, ix, p.elements[i].key, p.elements[i].val)
    ensures Tagged(r, Ids, {Error})
  {
    var f := (i: nat, en: Entry<ElementRestriction>) => AttributeRequiredErrors(s, ix, en.key, en.val);
    TaggedGather(p.elements, f, Ids, {Error}, 0);
    Gather(p.elements, f)
  }

  function CheckUndeclaredChildren(p: ProfileDocument, s: AknSchema, ix: LineIndex): (r: seq<ValidationError>)
    ensures forall e :: e in r <==> exists i :: 0 <= i < |p.elements| && e in UndeclaredErrors(s, ix, Keys(p.elements), p.elements[i].key, p.elements[i].val)
    ensures Tagged(r, Ids, {Error})
  {
    var declared := Keys(p.elements);
    var f := (i: nat, en: Entry<ElementRestriction>) => UndeclaredErrors(s, ix, declared, en.key, en.val);
    TaggedGather(p.elements, f, Ids, {Error}, 0);
    Gather(p.elements, f)
  }

  // ---------------------------------------------------------------------
  // The module.
  // ---------------------------------------------------------------------

  /** The six checks in order; `None` when the cardinality check raises. */
  function Validate(p: ProfileDocument, s: AknSchema, ix: LineIndex): (r: Option<seq<ValidationError>>)
    ensures r.None? <==> CheckChildCardinality(p, s, ix).None?
    ensures r.Some? ==> Tagged(r.value, Ids, {Error})
  {
    match CheckChildCardinality(p, s, ix)
    case None => None
    case Some(d) =>
      var a := CheckRequiredChildren(p, s, ix);
      var b := CheckRequiredAttributes(p, s, ix);
      var c := CheckRequiredChain(p, s, ix);
      var e := CheckAttributeRequired(p, s, ix);
      var f := CheckUndeclaredChildren(p, s, ix);
      TaggedConcat(a, b, Ids, {Error});
      TaggedConcat(a + b, c, Ids, {Error});
      TaggedConcat(a + b + c, d, Ids, {Error});
      TaggedConcat(a + b + c + d, e, Ids, {Error});
      TaggedConcat(a + b + c + d + e, f, Ids, {Error});
      Some(a + b + c + d + e + f)
  }

  /** Cardinalities written in the schema's own notation never make the module raise. */
  lemma FormattedCardinalitiesNeverRaise(p: ProfileDocument, s: AknSchema, ix: LineIndex)
    requires forall i, j :: (0 <= i < |p.elements| && 0 <= j < |p.elements[i].val.children| &&
      p.elements[i].val.children[j].val.Some?) ==>
      (exists lo: int, hi: Option<int> :: p.elements[i].val.children[j].val.value == FormatCardinality(lo, hi))
    ensures Validate(p, s, ix).Some?
  {
    forall i | 0 <= i < |p.elements| ensures ElementCardinalityErrors(s, ix, p.elements[i].key, p.elements[i].val).Some? {
      var en := p.elements[i];
      if en.val.children != [] && HasElement(s, en.key) {
        forall j | 0 <= j < |en.val.children| ensures ChildCardinalityErrors(s, ix, en.key, en.val.children[j]).Some? {
          var c := en.val.children[j];
          if c.val.Some? {
            var lo: int, hi: Option<int> :| c.val.value == FormatCardinality(lo, hi);
            CardinalityRoundTrip(lo, hi);
          }
        }
      }
    }
  }
}
