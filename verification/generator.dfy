/**
 The minimum viable profile generator (`models/generator.py`): the
 elements on the required-child chain of a document type, plus the root
 `akomaNtoso`, each restricted to its required attributes and children,
 and the plain YAML text of a profile.
 */
module Generator {
  import opened Wrappers
  import opened Strings
  import opened Dicts
  import opened Schema
  import opened Profile
  import RulesStrictness

  // ---------------------------------------------------------------------
  // Dict comprehensions.
  // ---------------------------------------------------------------------

  /**
   `{key(x): val(x) for x in xs if keep(x)}`, which is also the loop
   `for x in xs: if keep(x): d[key(x)] = val(x)`: a repeated key keeps the
   place of its first entry and the value of its last.
   */
  function Collect<T, V>(xs: seq<T>, keep: T -> bool, key: T -> string, val: T -> V): (r: Dict<V>)
    ensures DistinctKeys(r)
  {
    if xs == [] then []
    else
      var d := Collect(xs[..|xs| - 1], keep, key, val);
      var x := xs[|xs| - 1];
      if keep(x) then Put(d, key(x), val(x)) else d
  }

  /** `xs[i]` is the last kept item whose key is `k`. */
  predicate LastKept<T>(xs: seq<T>, keep: T -> bool, key: T -> string, k: string, i: int)
  {
    0 <= i < |xs| && keep(xs[i]) && key(xs[i]) == k &&
    forall j :: i < j < |xs| && keep(xs[j]) ==> key(xs[j]) != k
  }

  /** The keys are exactly the keys of the kept items. */
  lemma {:induction false} CollectKeys<T, V>(xs: seq<T>, keep: T -> bool, key: T -> string, val: T -> V, k: string)
    ensures k in Keys(Collect(xs, keep, key, val)) <==> exists i :: 0 <= i < |xs| && keep(xs[i]) && key(xs[i]) == k
    decreases |xs|
  {
    if xs != [] {
      var init := xs[..|xs| - 1];
      CollectKeys(init, keep, key, val, k);
      assert forall i :: 0 <= i < |init| ==> init[i] == xs[i];
      if (exists i :: 0 <= i < |xs| && keep(xs[i]) && key(xs[i]) == k) {
        var i :| 0 <= i < |xs| && keep(xs[i]) && key(xs[i]) == k;
        if i < |init| {
          assert init[i] == xs[i];
        }
      }
    }
  }

  /** Each key maps to the value of the last kept item with that key. */
  lemma {:induction false} CollectGet<T, V>(xs: seq<T>, keep: T -> bool, key: T -> string, val: T -> V, k: string)
    requires k in Keys(Collect(xs, keep, key, val))
    ensures exists i :: LastKept(xs, keep, key, k, i) && Get(Collect(xs, keep, key, val), k) == Some(val(xs[i]))
    decreases |xs|
  {
    var init := xs[..|xs| - 1];
    var x := xs[|xs| - 1];
    if keep(x) && key(x) == k {
      assert LastKept(xs, keep, key, k, |xs| - 1);
    } else {
      assert Get(Collect(xs, keep, key, val), k) == Get(Collect(init, keep, key, val), k);
      CollectGet(init, keep, key, val, k);
      var i :| LastKept(init, keep, key, k, i) && Get(Collect(init, keep, key, val), k) == Some(val(init[i]));
      LastKeptPrefix(xs, keep, key, k, i);
    }
  }

  lemma LastKeptPrefix<T>(xs: seq<T>, keep: T -> bool, key: T -> string, k: string, i: int)
    requires xs != [] && LastKept(xs[..|xs| - 1], keep, key, k, i)
    requires !(keep(xs[|xs| - 1]) && key(xs[|xs| - 1]) == k)
    ensures LastKept(xs, keep, key, k, i) && xs[..|xs| - 1][i] == xs[i]
  {
    var init := xs[..|xs| - 1];
    assert forall j :: i <= j < |init| ==> init[j] == xs[j];
  }

  // ---------------------------------------------------------------------
  // One element.
  // ---------------------------------------------------------------------

  /** `include_optional_children` and `include_optional_attributes`. */
  datatype Options = Options(optionalChildren: bool, optionalAttributes: bool)

  predicate KeepAttr(o: Options, a: AttrInfo)
  {
    a.required || o.optionalAttributes
  }

  predicate KeepChild(o: Options, c: ChildInfo)
  {
    c.required || o.optionalChildren
  }

  /** The restriction of one attribute: its `required` flag and its enumeration values, if any. */
  function AttrRestriction(a: AttrInfo): AttributeRestriction
  {
    AttributeRestriction(a.required, a.enumValues)
  }

  function AttrKey(a: AttrInfo): string
  {
    a.name
  }

  function ChildKey(c: ChildInfo): string
  {
    c.name
  }

  /** A child's cardinality string; never empty, so never written as a bare key. */
  function ChildValue(c: ChildInfo): Option<string>
  {
    Some(ChildCardinality(c))
  }

  /** The restriction `_add_element` builds from an element's schema entry. */
  function Restriction(info: ElementInfo, o: Options): ElementRestriction
  {
    ElementRestriction(
      Collect(info.attributes, a => KeepAttr(o, a), AttrKey, AttrRestriction),
      Collect(info.children, c => KeepChild(o, c), ChildKey, ChildValue),
      [], [])
  }

  /** The attributes `Restriction` keeps: the required ones, or all of them with the option set. */
  lemma RestrictionAttributes(info: ElementInfo, o: Options, k: string)
    ensures k in Keys(Restriction(info, o).attributes) <==>
      exists i :: 0 <= i < |info.attributes| && info.attributes[i].name == k && (info.attributes[i].required || o.optionalAttributes)
    ensures k in Keys(Restriction(info, o).attributes) ==>
      exists i :: 0 <= i < |info.attributes| && info.attributes[i].name == k &&
        Get(Restriction(info, o).attributes, k) == Some(AttributeRestriction(info.attributes[i].required, info.attributes[i].enumValues))
  {
    var keep := a => KeepAttr(o, a);
    CollectKeys(info.attributes, keep, AttrKey, AttrRestriction, k);
    if k in Keys(Restriction(info, o).attributes) {
      CollectGet(info.attributes, keep, AttrKey, AttrRestriction, k);
    }
  }

  /** The children `Restriction` keeps, each mapped to its cardinality string. */
  lemma RestrictionChildren(info: ElementInfo, o: Options, k: string)
    ensures k in Keys(Restriction(info, o).children) <==>
      exists i :: 0 <= i < |info.children| && info.children[i].name == k && (info.children[i].required || o.optionalChildren)
    ensures k in Keys(Restriction(info, o).children) ==>
      exists i :: 0 <= i < |info.children| && info.children[i].name == k &&
        Get(Restriction(info, o).children, k) == Some(Some(ChildCardinality(info.children[i])))
  {
    var keep := c => KeepChild(o, c);
    CollectKeys(info.children, keep, ChildKey, ChildValue, k);
    if k in Keys(Restriction(info, o).children) {
      CollectGet(info.children, keep, ChildKey, ChildValue, k);
    }
  }

  /** `_add_element`: nothing for an unknown name, else the element's restriction under its name. */
  function AddElement(s: AknSchema, name: string, o: Options, els: Dict<ElementRestriction>): (r: Dict<ElementRestriction>)
    ensures !HasElement(s, name) ==> r == els
    ensures HasElement(s, name) ==> Get(r, name) == Some(Restriction(GetElementInfo(s, name).value, o))
    ensures forall k :: k != name ==> Get(r, k) == Get(els, k)
    ensures forall k :: k in Keys(r) <==> k in Keys(els) || (k == name && HasElement(s, name))
    ensures DistinctKeys(els) ==> DistinctKeys(r)
  {
    match GetElementInfo(s, name)
    case None => els
    case Some(info) => Put(els, name, Restriction(info, o))
  }

  /** `_add_element` for each of `names` in turn. */
  function AddAll(s: AknSchema, names: seq<string>, o: Options, els: Dict<ElementRestriction>): (r: Dict<ElementRestriction>)
    ensures forall k :: k in Keys(r) <==> k in Keys(els) || (k in names && HasElement(s, k))
    ensures forall k :: k in names && HasElement(s, k) ==> Get(r, k) == Some(Restriction(GetElementInfo(s, k).value, o))
    ensures forall k :: k !in names ==> Get(r, k) == Get(els, k)
    ensures DistinctKeys(els) ==> DistinctKeys(r)
    decreases |names|
  {
    if names == [] then els
    else
      var r := AddAll(s, names[1..], o, AddElement(s, names[0], o, els));
      assert forall k :: k in names <==> k == names[0] || k in names[1..];
      r
  }

  // ---------------------------------------------------------------------
  // `generate_profile`.
  // ---------------------------------------------------------------------

  /** The `ValueError` for a document type that `akomaNtoso` does not allow. */
  datatype GenerateError = InvalidDocumentType(docType: string, valid: seq<string>)

  /**
   `_walk_required_tree` from `docType` with a fresh visited set: the
   names in the order they are first reached. It is the same depth-first
   traversal as the strictness module's required-chain walk, whose
   result with nothing declared lists every visited name.
   */
  function VisitOrder(s: AknSchema, docType: string): seq<string>
  {
    RulesStrictness.WalkRequiredChain(s, docType, {}, {}).0
  }

  /** The walk reaches exactly the names on the required-child chain. */
  lemma VisitOrderIsChain(s: AknSchema, docType: string)
    ensures forall x :: x in VisitOrder(s, docType) <==> OnRequiredChain(s, docType, x)
  {
    forall x ensures x in VisitOrder(s, docType) <==> OnRequiredChain(s, docType, x) {
      RulesStrictness.WalkFindsExactlyTheChain(s, docType, {}, x);
    }
  }

  /**
   `generate_profile(schema, doc_type, ...)`: a `ValueError` unless the
   document type is a child of `akomaNtoso`; otherwise a profile with
   that one document type whose elements are the known elements on its
   required-child chain and `akomaNtoso`, each with its `_add_element`
   restriction.
   */
  function GenerateProfile(s: AknSchema, docType: string, o: Options): (r: Result<ProfileDocument, GenerateError>)
    ensures r.Err? <==> docType !in GetChildren(s, "akomaNtoso")
    ensures r.Ok? ==> r.value.documentTypes == [docType] && r.value.version == "1.0"
    ensures r.Ok? ==> DistinctKeys(r.value.elements)
    ensures r.Ok? ==> HasElement(s, "akomaNtoso")
    ensures r.Ok? ==> forall x :: x in Keys(r.value.elements) <==>
      x == "akomaNtoso" || (OnRequiredChain(s, docType, x) && HasElement(s, x))
    ensures r.Ok? ==> forall x :: x in Keys(r.value.elements) ==>
      Get(r.value.elements, x) == Some(Restriction(GetElementInfo(s, x).value, o))
  {
    var valid := GetChildren(s, "akomaNtoso");
    if docType !in valid then Err(InvalidDocumentType(docType, valid))
    else
      var order := VisitOrder(s, docType);
      var els := AddElement(s, "akomaNtoso", o, AddAll(s, order, o, []));
      VisitOrderIsChain(s, docType);
      Ok(ProfileDocument(
        "Minimum viable profile (" + docType + ")",
        "1.0",
        "Minimum viable application profile for the " + docType + " document type.",
        [docType],
        els))
  }

  /** With `include_optional_attributes` every element keeps at least the attributes it keeps without. */
  lemma OptionalAttributesSuperset(s: AknSchema, docType: string, optionalChildren: bool, x: string, k: string)
    requires GenerateProfile(s, docType, Options(optionalChildren, false)).Ok?
    requires x in Keys(GenerateProfile(s, docType, Options(optionalChildren, false)).value.elements)
    requires k in Keys(Get(GenerateProfile(s, docType, Options(optionalChildren, false)).value.elements, x).value.attributes)
    ensures x in Keys(GenerateProfile(s, docType, Options(optionalChildren, true)).value.elements)
    ensures k in Keys(Get(GenerateProfile(s, docType, Options(optionalChildren, true)).value.elements, x).value.attributes)
  {
    var info := GetElementInfo(s, x).value;
    RestrictionAttributes(info, Options(optionalChildren, false), k);
    RestrictionAttributes(info, Options(optionalChildren, true), k);
  }

  // ---------------------------------------------------------------------
  // `_to_plain_yaml`.
  // ---------------------------------------------------------------------

  function Quoted(s: string): string
  {
    "\"" + s + "\""
  }

  /** One line `prefix + x` per item `x`. */
  function Items(prefix: string, xs: seq<string>): (r: seq<string>)
    ensures |r| == |xs| && forall i :: 0 <= i < |xs| ==> r[i] == prefix + xs[i]
  {
    seq(|xs|, i requires 0 <= i < |xs| => prefix + xs[i])
  }

  /** A line inside the `elements` section: blank, or indented past the section keys. */
  predicate Deep(line: string)
  {
    line == "" || (|line| > 2 && line[2] == ' ')
  }

  lemma ItemsDeep(prefix: string, xs: seq<string>)
    requires |prefix| > 2 && prefix[2] == ' '
    ensures forall l :: l in Items(prefix, xs) ==> Deep(l)
  {
    forall l | l in Items(prefix, xs) ensures Deep(l) {
      var i :| 0 <= i < |xs| && Items(prefix, xs)[i] == l;
      assert l == prefix + xs[i];
      assert l[2] == prefix[2];
    }
  }

  /** The metadata lines: name, version, the description when there is one, then a blank line. */
  function HeaderLines(p: ProfileDocument): seq<string>
  {
    ["profile:", "  name: " + Quoted(p.name), "  version: " + Quoted(p.version)]
    + (if p.description != "" then ["  description: " + Quoted(p.description)] else [])
    + [""]
  }

  function DocumentTypeLines(p: ProfileDocument): seq<string>
  {
    if p.documentTypes == [] then [] else ["  documentTypes:"] + Items("    - ", p.documentTypes) + [""]
  }

  function AttributeEntries(attrs: Dict<AttributeRestriction>): (r: seq<string>)
    ensures forall l :: l in r ==> Deep(l)
  {
    if attrs == [] then []
    else
      var a := attrs[0].val;
      var values := if a.values == [] then [] else ["          values:"] + Items("            - ", a.values);
      ItemsDeep("            - ", a.values);
      ["        " + attrs[0].key + ":", "          required: " + (if a.required then "true" else "false")]
      + values + AttributeEntries(attrs[1..])
  }

  function ChildEntry(name: string, cardinality: Option<string>): (l: string)
    ensures Deep(l)
  {
    if cardinality.Some? && cardinality.value != "" then "        " + name + ": " + Quoted(cardinality.value)
    else "        " + name + ":"
  }

  function ChildEntries(children: Dict<Option<string>>): (r: seq<string>)
    ensures forall l :: l in r ==> Deep(l)
  {
    if children == [] then [] else [ChildEntry(children[0].key, children[0].val)] + ChildEntries(children[1..])
  }

  /** The lines of one element: its key, then its non-empty sections, then a blank line. */
  function ElementBlock(name: string, r: ElementRestriction): (b: seq<string>)
    ensures |b| > 0 && b[0] == "    " + name + ":"
    ensures forall l :: l in b ==> Deep(l)
  {
    var head := "    " + name + ":";
    var body := AttributeSection(r.attributes) + ChildSection(r.children) + StructureSection(r.structure);
    assert Deep(head) by {
      assert head[2] == ' ';
    }
    [head] + body + [""]
  }

  /** `attributes:` and its entries, or nothing when there are none. */
  function AttributeSection(attrs: Dict<AttributeRestriction>): (r: seq<string>)
    ensures forall l :: l in r ==> Deep(l)
  {
    if attrs == [] then [] else ["      attributes:"] + AttributeEntries(attrs)
  }

  /** `children:` and its entries, or nothing when there are none. */
  function ChildSection(children: Dict<Option<string>>): (r: seq<string>)
    ensures forall l :: l in r ==> Deep(l)
  {
    if children == [] then [] else ["      children:"] + ChildEntries(children)
  }

  /** `structure:` and its items, or nothing when there are none. */
  function StructureSection(structure: seq<string>): (r: seq<string>)
    ensures forall l :: l in r ==> Deep(l)
  {
    ItemsDeep("        - ", structure);
    if structure == [] then [] else ["      structure:"] + Items("        - ", structure)
  }

  function ElementBlocks(els: Dict<ElementRestriction>): (r: seq<string>)
    ensures forall l :: l in r ==> Deep(l)
  {
    if els == [] then [] else ElementBlock(els[0].key, els[0].val) + ElementBlocks(els[1..])
  }

  function ElementLines(p: ProfileDocument): (r: seq<string>)
    ensures forall l :: l in r ==> l == "  elements:" || Deep(l)
  {
    if p.elements == [] then [] else ["  elements:"] + ElementBlocks(p.elements)
  }

  function PlainLines(p: ProfileDocument): seq<string>
  {
    HeaderLines(p) + DocumentTypeLines(p) + ElementLines(p)
  }

  /** `_to_plain_yaml(profile)`: the lines joined by newlines, with a final newline. */
  function PlainYaml(p: ProfileDocument): (r: string)
    ensures StartsWith(r, "profile:")
    ensures EndsWith(r, "\n")
  {
    var lines := PlainLines(p);
    JoinStartsWithFirst(lines, "\n");
    Join(lines, "\n") + "\n"
  }

  lemma JoinStartsWithFirst(parts: seq<string>, sep: string)
    requires |parts| > 0
    ensures StartsWith(Join(parts, sep), parts[0])
  {
  }

  // ---------------------------------------------------------------------
  // Reading the document types back.
  // ---------------------------------------------------------------------

  /** The first position of line `x`. */
  function FindLine(lines: seq<string>, x: string): (r: Option<nat>)
    ensures r.Some? ==> r.value < |lines| && lines[r.value] == x && forall j :: 0 <= j < r.value ==> lines[j] != x
    ensures r.None? ==> x !in lines
  {
    if lines == [] then None
    else if lines[0] == x then Some(0)
    else match FindLine(lines[1..], x)
      case None => None
      case Some(j) => Some(j + 1)
  }

  /** The items of a list: the lines from the first on that start with `prefix`, without it. */
  function ReadItems(lines: seq<string>, prefix: string): seq<string>
  {
    if lines == [] || !StartsWith(lines[0], prefix) then []
    else [lines[0][|prefix|..]] + ReadItems(lines[1..], prefix)
  }

  /** The document types a profile text lists under its `documentTypes:` line. */
  function ReadDocumentTypes(lines: seq<string>): seq<string>
  {
    match FindLine(lines, "  documentTypes:")
    case None => []
    case Some(j) => ReadItems(lines[j + 1..], "    - ")
  }

  lemma {:induction false} ReadItemsOf(prefix: string, xs: seq<string>, rest: seq<string>)
    requires rest == [] || !StartsWith(rest[0], prefix)
    ensures ReadItems(Items(prefix, xs) + rest, prefix) == xs
    decreases |xs|
  {
    var lines := Items(prefix, xs) + rest;
    if xs == [] {
      assert lines == rest;
    } else {
      assert lines[0] == prefix + xs[0];
      assert lines[0][..|prefix|] == prefix && lines[0][|prefix|..] == xs[0];
      assert lines[1..] == Items(prefix, xs[1..]) + rest;
      ReadItemsOf(prefix, xs[1..], rest);
    }
  }

  lemma {:induction false} FindLineAfter(h: seq<string>, rest: seq<string>, x: string)
    requires x !in h
    ensures FindLine(h + rest, x) == (if FindLine(rest, x).None? then None else Some(|h| + FindLine(rest, x).value))
    decreases |h|
  {
    if h != [] {
      assert (h + rest)[1..] == h[1..] + rest;
      FindLineAfter(h[1..], rest, x);
    } else {
      assert h + rest == rest;
    }
  }

  lemma HeaderHasNoDocumentTypes(p: ProfileDocument)
    ensures "  documentTypes:" !in HeaderLines(p)
  {
    var key := "  documentTypes:";
    assert key[3] == 'o';
    assert ("  name: " + Quoted(p.name))[2] == 'n';
    assert ("  version: " + Quoted(p.version))[2] == 'v';
    assert ("  description: " + Quoted(p.description))[3] == 'e';
  }

  /**
   The plain YAML lists exactly the profile's document types, in order,
   one `    - dt` line each under `  documentTypes:`.
   */
  lemma PlainYamlDocumentTypes(p: ProfileDocument)
    ensures ReadDocumentTypes(PlainLines(p)) == p.documentTypes
  {
    if p.documentTypes == [] {
      WithoutDocumentTypes(p);
    } else {
      WithDocumentTypes(p);
    }
  }

  lemma WithoutDocumentTypes(p: ProfileDocument)
    requires p.documentTypes == []
    ensures ReadDocumentTypes(PlainLines(p)) == []
  {
    HeaderHasNoDocumentTypes(p);
    ElementsHaveNoDocumentTypes(p);
    assert PlainLines(p) == HeaderLines(p) + ElementLines(p);
    ReadWithoutKey(HeaderLines(p), ElementLines(p));
  }

  /** Without a `documentTypes:` line there are no document types to read. */
  lemma ReadWithoutKey(h: seq<string>, e: seq<string>)
    requires "  documentTypes:" !in h && "  documentTypes:" !in e
    ensures ReadDocumentTypes(h + e) == []
  {
    assert "  documentTypes:" !in h + e;
  }

  lemma ElementsHaveNoDocumentTypes(p: ProfileDocument)
    ensures "  documentTypes:" !in ElementLines(p)
  {
    var key := "  documentTypes:";
    assert key != "  elements:" && !Deep(key);
  }

  lemma WithDocumentTypes(p: ProfileDocument)
    requires p.documentTypes != []
    ensures ReadDocumentTypes(PlainLines(p)) == p.documentTypes
  {
    var key := "  documentTypes:";
    var h := HeaderLines(p);
    var items := Items("    - ", p.documentTypes);
    var rest := [""] + ElementLines(p);
    HeaderHasNoDocumentTypes(p);
    assert PlainLines(p) == h + ([key] + (items + rest)) by {
      DocumentTypeSection(h, key, items, ElementLines(p));
    }
    assert !StartsWith(rest[0], "    - ");
    ReadSection(h, p.documentTypes, rest);
  }

  /** After a header without the key, the key line and its items read back as the items. */
  lemma ReadSection(h: seq<string>, xs: seq<string>, rest: seq<string>)
    requires "  documentTypes:" !in h
    requires rest == [] || !StartsWith(rest[0], "    - ")
    ensures ReadDocumentTypes(h + (["  documentTypes:"] + (Items("    - ", xs) + rest))) == xs
  {
    var key := "  documentTypes:";
    var tail := [key] + (Items("    - ", xs) + rest);
    assert FindLine(h + tail, key) == Some(|h|) by {
      FindLineAfter(h, tail, key);
      assert FindLine(tail, key) == Some(0);
    }
    assert (h + tail)[|h| + 1..] == Items("    - ", xs) + rest;
    ReadItemsOf("    - ", xs, rest);
  }

  lemma DocumentTypeSection(h: seq<string>, key: string, items: seq<string>, e: seq<string>)
    ensures h + ([key] + items + [""]) + e == h + ([key] + (items + ([""] + e)))
  {
  }

  /** Every element of the profile gets its `    name:` line. */
  lemma {:induction false} ElementHeadings(els: Dict<ElementRestriction>, k: string)
    requires k in Keys(els)
    ensures "    " + k + ":" in ElementBlocks(els)
    decreases |els|
  {
    var b := ElementBlock(els[0].key, els[0].val);
    assert ElementBlocks(els) == b + ElementBlocks(els[1..]);
    if els[0].key == k {
      assert ElementBlocks(els)[0] == b[0];
    } else {
      assert k in Keys(els[1..]) by {
        assert Keys(els) == [els[0].key] + Keys(els[1..]);
      }
      ElementHeadings(els[1..], k);
    }
  }

  /** The generated profile's YAML declares the one document type it was generated for. */
  lemma GeneratedYamlDocumentTypes(s: AknSchema, docType: string, o: Options)
    requires GenerateProfile(s, docType, o).Ok?
    ensures ReadDocumentTypes(PlainLines(GenerateProfile(s, docType, o).value)) == [docType]
  {
    PlainYamlDocumentTypes(GenerateProfile(s, docType, o).value);
  }
}
