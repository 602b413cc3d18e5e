/**
 The profile document records (`models/profile.py`) and their decoding from
 a constructed YAML value: bare keys (`None`) under `elements` and
 `attributes` become empty mappings, bare keys under `children` stay `None`
 ("use the schema default"), absent fields take their defaults, and every
 ill-typed value is reported with its location.

 `ElementRestriction` also carries `exclusiveChildren`: a `choice` entry
 under `children` is taken out of `children` and flattened into it (a
 mapping as is, a legacy list of mappings merged in order).
 */
module Profile {
  import opened Wrappers
  import opened Strings
  import opened Dicts
  import opened Yaml

  datatype AttributeRestriction = AttributeRestriction(required: bool, values: seq<string>)

  /** Child cardinalities are `"min..max"` strings; `None` means the schema default. */
  datatype ElementRestriction = ElementRestriction(
    attributes: Dict<AttributeRestriction>,
    children: Dict<Option<string>>,
    exclusiveChildren: Dict<Option<string>>,
    structure: seq<string>)

  datatype ProfileDocument = ProfileDocument(
    name: string,
    version: string,
    description: string,
    documentTypes: seq<string>,
    elements: Dict<ElementRestriction>)

  const EmptyAttribute := AttributeRestriction(false, [])
  const EmptyElement := ElementRestriction([], [], [], [])
  const EmptyProfile := ProfileDocument("", "", "", [], [])

  /** A decoding failure: the location (field names, keys and list indices) and the kind. */
  datatype DecodeError = DecodeError(loc: seq<string>, kind: string)

  /** A decoded value with the errors met on the way; the value is meaningless unless there are none. */
  datatype Decoded<T> = Decoded(value: T, errors: seq<DecodeError>)

  // ---------------------------------------------------------------------
  // Bare-key coercion.
  // ---------------------------------------------------------------------

  /** `None` becomes `{}`; anything else is kept. */
  function NoneToEmpty(v: Value): Value
  {
    if v.Null? then Map([]) else v
  }

  /**
   The `mode="before"` validators of `attributes` and `elements`: in a
   mapping every `None` value becomes `{}`; anything that is not a mapping
   passes unchanged.
   */
  function CoerceBareKeys(v: Value): (r: Value)
    ensures !v.Map? ==> r == v
    ensures v.Map? ==> r.Map? && Keys(r.entries) == Keys(v.entries)
    ensures v.Map? ==> forall i :: 0 <= i < |v.entries| ==>
      r.entries[i].val == (if v.entries[i].val.Null? then Map([]) else v.entries[i].val)
  {
    if v.Map? then
      Map(seq(|v.entries|, i requires 0 <= i < |v.entries| => Entry(v.entries[i].key, NoneToEmpty(v.entries[i].val))))
    else v
  }

  /** Coercing twice is coercing once. */
  lemma CoerceBareKeysIdempotent(v: Value)
    ensures CoerceBareKeys(CoerceBareKeys(v)) == CoerceBareKeys(v)
  {
    if v.Map? {
      var once := CoerceBareKeys(v);
      var twice := CoerceBareKeys(once);
      assert forall i :: 0 <= i < |once.entries| ==> !once.entries[i].val.Null?;
      assert twice.entries == once.entries;
    }
  }

  // ---------------------------------------------------------------------
  // Scalar and collection decoders.
  // ---------------------------------------------------------------------

  function DecodeStr(v: Value, loc: seq<string>): (r: Decoded<string>)
    ensures r.errors == [] <==> v.Str?
    ensures v.Str? ==> r.value == v.s
  {
    if v.Str? then Decoded(v.s, []) else Decoded("", [DecodeError(loc, "string_type")])
  }

  function DecodeOptStr(v: Value, loc: seq<string>): (r: Decoded<Option<string>>)
    ensures r.errors == [] <==> v.Str? || v.Null?
    ensures v.Null? ==> r.value == None
    ensures v.Str? ==> r.value == Some(v.s)
  {
    match v
    case Null => Decoded(None, [])
    case Str(s) => Decoded(Some(s), [])
    case _ => Decoded(None, [DecodeError(loc, "string_type")])
  }

  /** The strings a lax boolean field accepts, lower-cased. */
  predicate TrueWord(s: string)
  {
    s in {"1", "on", "t", "true", "y", "yes"}
  }

  predicate FalseWord(s: string)
  {
    s in {"0", "off", "f", "false", "n", "no"}
  }

  /** A boolean in lax mode: booleans, the integers 0 and 1, and the usual words. */
  function DecodeBool(v: Value, loc: seq<string>): (r: Decoded<bool>)
    ensures v.Bool? ==> r == Decoded(v.b, [])
    ensures r.errors == [] <==> (v.Bool? || (v.Int? && (v.i == 0 || v.i == 1)) ||
      (v.Str? && (TrueWord(Lower(v.s)) || FalseWord(Lower(v.s)))))
  {
    match v
    case Bool(b) => Decoded(b, [])
    case Int(i) =>
      if i == 0 || i == 1 then Decoded(i == 1, []) else Decoded(false, [DecodeError(loc, "bool_parsing")])
    case Str(s) =>
      if TrueWord(Lower(s)) then Decoded(true, [])
      else if FalseWord(Lower(s)) then Decoded(false, [])
      else Decoded(false, [DecodeError(loc, "bool_parsing")])
    case _ => Decoded(false, [DecodeError(loc, "bool_type")])
  }

  /** Items of a list from position `from`, each checked to be a string. */
  function DecodeStrItems(items: seq<Value>, from: nat, loc: seq<string>): (r: Decoded<seq<string>>)
    requires from <= |items|
    ensures r.errors == [] <==> forall i :: from <= i < |items| ==> items[i].Str?
    ensures r.errors == [] ==> |r.value| == |items| - from
    ensures r.errors == [] ==> forall i :: from <= i < |items| ==> r.value[i - from] == items[i].s
    decreases |items| - from
  {
    if from == |items| then Decoded([], [])
    else
      var head := DecodeStr(items[from], loc + [NatToString(from)]);
      var rest := DecodeStrItems(items, from + 1, loc);
      Decoded([head.value] + rest.value, head.errors + rest.errors)
  }

  /** `list[str]`. */
  function DecodeStrList(v: Value, loc: seq<string>): (r: Decoded<seq<string>>)
    ensures r.errors == [] <==> v.List? && forall i :: 0 <= i < |v.items| ==> v.items[i].Str?
    ensures r.errors == [] ==> |r.value| == |v.items| && forall i :: 0 <= i < |v.items| ==> r.value[i] == v.items[i].s
  {
    if v.List? then DecodeStrItems(v.items, 0, loc) else Decoded([], [DecodeError(loc, "list_type")])
  }

  /** A field of a model: absent keys take the default, present ones are decoded. */
  function FieldOr<T>(v: Value, key: string, default_: T, loc: seq<string>, dec: (Value, seq<string>) -> Decoded<T>): (r: Decoded<T>)
    requires v.Map?
    ensures key !in Keys(v.entries) ==> r == Decoded(default_, [])
    ensures key in Keys(v.entries) ==> r == dec(Get(v.entries, key).value, loc + [key])
  {
    match Get(v.entries, key)
    case None => Decoded(default_, [])
    case Some(x) => dec(x, loc + [key])
  }

  /** The entries of a mapping, each value decoded with its key in the location. */
  function DecodeEntries<T>(d: Dict<Value>, loc: seq<string>, dec: (Value, seq<string>) -> Decoded<T>): (r: Decoded<Dict<T>>)
    ensures Keys(r.value) == Keys(d)
    ensures r.errors == [] <==> forall i :: 0 <= i < |d| ==> dec(d[i].val, loc + [d[i].key]).errors == []
    ensures forall i :: 0 <= i < |d| ==> r.value[i].val == dec(d[i].val, loc + [d[i].key]).value
  {
    if d == [] then Decoded([], [])
    else
      var head := dec(d[0].val, loc + [d[0].key]);
      var rest := DecodeEntries(d[1..], loc, dec);
      var r := Decoded([Entry(d[0].key, head.value)] + rest.value, head.errors + rest.errors);
      assert forall i :: 0 < i < |d| ==> d[i] == d[1..][i - 1];
      assert forall i :: 0 < i < |d| ==> r.value[i] == rest.value[i - 1];
      assert Keys(r.value) == Keys(d);
      r
  }

  /** `dict[str, T]`. */
  function DecodeDict<T>(v: Value, loc: seq<string>, dec: (Value, seq<string>) -> Decoded<T>): (r: Decoded<Dict<T>>)
    ensures !v.Map? ==> r.errors != []
    ensures v.Map? ==> Keys(r.value) == Keys(v.entries)
    ensures v.Map? ==> (r.errors == [] <==> forall i :: 0 <= i < |v.entries| ==> dec(v.entries[i].val, loc + [v.entries[i].key]).errors == [])
    ensures v.Map? ==> forall i :: 0 <= i < |v.entries| ==> r.value[i].val == dec(v.entries[i].val, loc + [v.entries[i].key]).value
  {
    if v.Map? then
      DecodeEntries(v.entries, loc, dec)
    else Decoded([], [DecodeError(loc, "dict_type")])
  }

  // ---------------------------------------------------------------------
  // Models.
  // ---------------------------------------------------------------------

  function DecodeAttribute(v: Value, loc: seq<string>): (r: Decoded<AttributeRestriction>)
    ensures v == Map([]) ==> r == Decoded(EmptyAttribute, [])
    ensures !v.Map? ==> r.errors != []
  {
    if !v.Map? then Decoded(EmptyAttribute, [DecodeError(loc, "model_type")])
    else
      var req := FieldOr(v, "required", false, loc, DecodeBool);
      var vals := FieldOr(v, "values", [], loc, DecodeStrList);
      Decoded(AttributeRestriction(req.value, vals.value), req.errors + vals.errors)
  }

  /** Merge a legacy list of single-entry mappings into one mapping, later keys winning. */
  function MergeMappings(items: seq<Value>, acc: Dict<Value>): (r: Dict<Value>)
    requires DistinctKeys(acc)
    ensures DistinctKeys(r)
    ensures forall k :: k in Keys(acc) ==> k in Keys(r)
    decreases |items|
  {
    if items == [] then acc
    else
      var acc' := if items[0].Map? then PutAll(acc, items[0].entries) else acc;
      MergeMappings(items[1..], acc')
  }

  /** `d.update(other)`. */
  function PutAll(d: Dict<Value>, other: Dict<Value>): (r: Dict<Value>)
    requires DistinctKeys(d)
    ensures DistinctKeys(r)
    ensures forall k :: k in Keys(r) <==> k in Keys(d) || k in Keys(other)
    decreases |other|
  {
    if other == [] then d
    else
      assert forall k :: k in Keys(other) <==> k == other[0].key || k in Keys(other[1..]);
      PutAll(Put(d, other[0].key, other[0].val), other[1..])
  }

  /** The flat mapping of exclusive children a `choice` value stands for. */
  function FlattenChoice(v: Value): (r: Value)
    ensures r.Map?
  {
    match v
    case Map(d) => Map(d)
    case List(items) => Map(MergeMappings(items, []))
    case _ => Map([])
  }

  /**
   The `choice` extraction applied before field validation: with a mapping
   under `children` that has a `choice` key, that key leaves `children` and
   its flattened contents become `exclusive_children`.
   */
  function ExtractChoice(v: Value): (r: (Value, Option<Value>))
    ensures r.1.Some? <==> (v.Map? && Field(v, "children").Some? &&
      Field(v, "children").value.Map? && "choice" in Keys(Field(v, "children").value.entries))
    ensures r.1.Some? ==> r.0.Map? && "choice" !in Keys(r.0.entries)
    ensures r.1.None? ==> r.0 == Field(v, "children").GetOr(Null)
  {
    match Field(v, "children")
    case None => (Null, None)
    case Some(c) =>
      if c.Map? && "choice" in Keys(c.entries) then
        (Map(Remove(c.entries, "choice")), Some(FlattenChoice(Get(c.entries, "choice").value)))
      else (c, None)
  }

  function DecodeChildren(v: Value, loc: seq<string>): Decoded<Dict<Option<string>>>
  {
    DecodeDict(v, loc, DecodeOptStr)
  }

  function DecodeAttributes(v: Value, loc: seq<string>): Decoded<Dict<AttributeRestriction>>
  {
    DecodeDict(CoerceBareKeys(v), loc, DecodeAttribute)
  }

  function DecodeElement(v: Value, loc: seq<string>): (r: Decoded<ElementRestriction>)
    ensures v == Map([]) ==> r == Decoded(EmptyElement, [])
    ensures !v.Map? ==> r.errors != []
    ensures r.errors == [] && v.Map? && Field(v, "children").Some? && Field(v, "children").value.Map? ==>
      var c := Field(v, "children").value.entries;
      (forall k :: k in Keys(r.value.children) <==> k in Keys(c) && k != "choice") &&
      (forall k :: k != "choice" ==> (Get(c, k) == Some(Null) <==> Get(r.value.children, k) == Some(None)))
  {
    if !v.Map? then Decoded(EmptyElement, [DecodeError(loc, "model_type")])
    else
      var attrs := FieldOr(v, "attributes", [], loc, DecodeAttributes);
      var (children, exclusive) := ExtractChoice(v);
      var kids :=
        if Field(v, "children").None? then Decoded([], [])
        else DecodeChildren(children, loc + ["children"]);
      var excl :=
        if exclusive.Some? then DecodeChildren(exclusive.value, loc + ["exclusive_children"])
        else FieldOr(v, "exclusive_children", [], loc, DecodeChildren);
      var structure := FieldOr(v, "structure", [], loc, DecodeStrList);
      ChildrenKeys(v, children, kids, loc + ["children"]);
      Decoded(ElementRestriction(attrs.value, kids.value, excl.value, structure.value),
        attrs.errors + kids.errors + structure.errors + excl.errors)
  }

  /** What decoding `children` keeps: every key but `choice`, `None` exactly for bare keys. */
  lemma ChildrenKeys(v: Value, children: Value, kids: Decoded<Dict<Option<string>>>, loc: seq<string>)
    requires v.Map? && children == ExtractChoice(v).0
    requires (Field(v, "children").Some? && kids == DecodeChildren(children, loc)) ||
      (Field(v, "children").None? && kids == Decoded([], []))
    ensures kids.errors == [] && Field(v, "children").Some? && Field(v, "children").value.Map? ==>
      var c := Field(v, "children").value.entries;
      (forall k :: k in Keys(kids.value) <==> k in Keys(c) && k != "choice") &&
      (forall k :: k != "choice" ==> (Get(c, k) == Some(Null) <==> Get(kids.value, k) == Some(None)))
  {
    if kids.errors == [] && Field(v, "children").Some? && Field(v, "children").value.Map? {
      var c := Field(v, "children").value.entries;
      forall k | k != "choice" ensures Get(c, k) == Some(Null) <==> Get(kids.value, k) == Some(None) {
        DecodeDictGet(children, loc, DecodeOptStr, k);
      }
    }
  }

  /** Looking a key up after decoding a mapping is decoding the value looked up. */
  lemma DecodeDictGet<T>(v: Value, loc: seq<string>, dec: (Value, seq<string>) -> Decoded<T>, k: string)
    requires v.Map?
    ensures Get(DecodeDict(v, loc, dec).value, k) ==
      if k in Keys(v.entries) then Some(dec(Get(v.entries, k).value, loc + [k]).value) else None
  {
    var r := DecodeDict(v, loc, dec).value;
    IndexOfSameKeys(v.entries, r, k);
  }

  /** `ProfileDocument.model_validate` on the value under `profile`. */
  function DecodeProfile(v: Value): (r: Result<ProfileDocument, seq<DecodeError>>)
    requires v.Map?
    ensures v == Map([]) ==> r == Ok(EmptyProfile)
    ensures r.Err? ==> r.error != []
  {
    var name := FieldOr(v, "name", "", [], DecodeStr);
    var version := FieldOr(v, "version", "", [], DecodeStr);
    var description := FieldOr(v, "description", "", [], DecodeStr);
    var docTypes := FieldOr(v, "documentTypes", [], [], DecodeStrList);
    var elements := FieldOr(v, "elements", [], [], DecodeElements);
    var errors := name.errors + version.errors + description.errors + docTypes.errors + elements.errors;
    if errors == [] then Ok(ProfileDocument(name.value, version.value, description.value, docTypes.value, elements.value))
    else Err(errors)
  }

  function DecodeElements(v: Value, loc: seq<string>): Decoded<Dict<ElementRestriction>>
  {
    DecodeDict(CoerceBareKeys(v), loc, DecodeElement)
  }
}
