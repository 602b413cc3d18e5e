/**
 Reading a profile document (`validation/yaml_parser.py`): the line index
 that maps every key path to its 1-based line, and the decision ladder of
 `parse_profile` (syntax, top-level mapping, `profile` key, `profile`
 mapping, model validation). The YAML text itself is represented by what
 the YAML library makes of it.
 */
module YamlParser {
  import opened Wrappers
  import opened Strings
  import opened Dicts
  import opened Yaml
  import opened Errors
  import opened Profile

  // ---------------------------------------------------------------------
  // Line index.
  // ---------------------------------------------------------------------

  /** Key paths (`profile.elements.act`, `profile.documentTypes[0]`) to 1-based lines. */
  type LineIndex = map<string, int>

  /** `LineIndex.set`: a later record for the same path replaces the earlier one. */
  function SetLine(ix: LineIndex, path: string, line: int): (r: LineIndex)
    ensures GetLine(r, path) == Some(line)
    ensures forall q :: q != path ==> GetLine(r, q) == GetLine(ix, q)
  {
    ix[path := line]
  }

  /** `LineIndex.get`. */
  function GetLine(ix: LineIndex, path: string): (r: Option<int>)
    ensures r.Some? <==> path in ix
  {
    if path in ix then Some(ix[path]) else None
  }

  /** `LineIndex.get_or`: the recorded line, else the fallback. */
  function GetLineOr(ix: LineIndex, path: string, fallback: int): (r: int)
    ensures path in ix ==> r == ix[path]
    ensures path !in ix ==> r == fallback
  {
    GetLine(ix, path).GetOr(fallback)
  }

  /** The path of a mapping key below `prefix`; a key at the root is its bare text. */
  function KeyPath(prefix: string, key: string): string
  {
    if prefix != "" then prefix + "." + key else key
  }

  /** The path of a sequence item below `prefix`. */
  function ItemPath(prefix: string, i: nat): string
  {
    prefix + "[" + NatToString(i) + "]"
  }

  /** Every line in the index is a 1-based line. */
  predicate OneBased(ix: LineIndex)
  {
    forall p :: p in ix ==> ix[p] >= 1
  }

  /**
   The paths `_walk_node` records for the tree `n` at `prefix`: every
   scalar mapping key and every sequence item, with everything below them.
   */
  function Paths(n: Node, prefix: string): set<string>
    decreases n, 1
  {
    match n
    case ScalarNode(_, _, _) => {}
    case SeqNode(items, _) => ItemPaths(n, 0, prefix)
    case MapNode(pairs, _) => PairPaths(n, 0, prefix)
  }

  function ItemPaths(n: Node, from: nat, prefix: string): set<string>
    requires n.SeqNode? && from <= |n.items|
    decreases n, 0, |n.items| - from
  {
    if from == |n.items| then {}
    else
      var path := ItemPath(prefix, from);
      {path} + Paths(n.items[from], path) + ItemPaths(n, from + 1, prefix)
  }

  function PairPaths(n: Node, from: nat, prefix: string): set<string>
    requires n.MapNode? && from <= |n.pairs|
    decreases n, 0, |n.pairs| - from
  {
    if from == |n.pairs| then {}
    else
      var p := n.pairs[from];
      var here :=
        if p.key.ScalarNode? then
          var path := KeyPath(prefix, p.key.text);
          {path} + Paths(p.value, path)
        else {};
      here + PairPaths(n, from + 1, prefix)
  }

  /**
   `_walk_node`: record the line of every scalar mapping key and every
   sequence item below `n`, in document order.
   */
  function WalkNode(n: Node, prefix: string, ix: LineIndex): (r: LineIndex)
    ensures r.Keys == ix.Keys + Paths(n, prefix)
    ensures OneBased(ix) ==> OneBased(r)
    decreases n, 1
  {
    match n
    case ScalarNode(_, _, _) => ix
    case SeqNode(items, _) => WalkItems(n, 0, prefix, ix)
    case MapNode(pairs, _) => WalkPairs(n, 0, prefix, ix)
  }

  function WalkItems(n: Node, from: nat, prefix: string, ix: LineIndex): (r: LineIndex)
    requires n.SeqNode? && from <= |n.items|
    ensures r.Keys == ix.Keys + ItemPaths(n, from, prefix)
    ensures OneBased(ix) ==> OneBased(r)
    decreases n, 0, |n.items| - from
  {
    if from == |n.items| then ix
    else
      var item := n.items[from];
      var path := ItemPath(prefix, from);
      var ix' := WalkNode(item, path, SetLine(ix, path, item.line + 1));
      WalkItems(n, from + 1, prefix, ix')
  }

  function WalkPairs(n: Node, from: nat, prefix: string, ix: LineIndex): (r: LineIndex)
    requires n.MapNode? && from <= |n.pairs|
    ensures r.Keys == ix.Keys + PairPaths(n, from, prefix)
    ensures OneBased(ix) ==> OneBased(r)
    decreases n, 0, |n.pairs| - from
  {
    if from == |n.pairs| then ix
    else
      var p := n.pairs[from];
      var ix' :=
        if p.key.ScalarNode? then
          var path := KeyPath(prefix, p.key.text);
          WalkNode(p.value, path, SetLine(ix, path, p.key.line + 1))
        else ix;
      WalkPairs(n, from + 1, prefix, ix')
  }

  // ---------------------------------------------------------------------
  // The parse ladder.
  // ---------------------------------------------------------------------

  /**
   What the YAML library makes of a text: a syntax error (with the line of
   the problem mark, when there is one) or the composed tree (`None` for
   an empty document).
   */
  datatype Document = SyntaxError(problemLine: Option<nat>) | Composed(root: Option<Node>)

  /** `_build_line_index`: empty when the text does not compose. */
  function BuildLineIndex(doc: Document): (r: LineIndex)
    ensures OneBased(r)
    ensures doc.Composed? && doc.root.Some? ==> r.Keys == Paths(doc.root.value, "")
  {
    match doc
    case SyntaxError(_) => map[]
    case Composed(None) => map[]
    case Composed(Some(n)) => WalkNode(n, "", map[])
  }

  /** `yaml.safe_load`: the constructed value, or the 0-based problem line of the failure. */
  function SafeLoad(doc: Document): (r: Result<Value, Option<nat>>)
    ensures r.Ok? ==> WellFormed(r.value)
  {
    match doc
    case SyntaxError(line) => Err(line)
    case Composed(None) => Ok(Null)
    case Composed(Some(n)) =>
      match Construct(n)
      case Ok(v) => Ok(v)
      case Err(line) => Err(Some(line))
  }

  /** The path of a model-validation error: `profile` followed by its location. */
  function LocPath(loc: seq<string>): string
  {
    if loc == [] then "profile" else "profile." + Join(loc, ".")
  }

  function PydanticError(e: DecodeError, ix: LineIndex): ValidationError
  {
    var path := LocPath(e.loc);
    Finding("parse.pydantic", path, Message(e.kind, []), Error, GetLine(ix, path))
  }

  function PydanticErrors(es: seq<DecodeError>, ix: LineIndex): (r: seq<ValidationError>)
    ensures |r| == |es|
    ensures forall i :: 0 <= i < |es| ==> r[i] == PydanticError(es[i], ix)
  {
    seq(|es|, i requires 0 <= i < |es| => PydanticError(es[i], ix))
  }

  /** The outcome of `parse_profile`. */
  datatype ParseResult = ParseResult(profile: Option<ProfileDocument>, errors: seq<ValidationError>, index: LineIndex)

  /** A failed rung: no profile and a single error with this rule id. */
  predicate FailedWith(r: ParseResult, ruleId: string)
  {
    r.profile.None? && |r.errors| == 1 && r.errors[0].ruleId == ruleId && r.errors[0].severity == Error
  }

  /** `parse_profile`. */
  function ParseProfile(doc: Document): (r: ParseResult)
    ensures r.index == BuildLineIndex(doc)
    ensures SafeLoad(doc).Err? ==> FailedWith(r, "parse.yaml-syntax") && r.errors[0].path == ""
    ensures SafeLoad(doc).Err? && SafeLoad(doc).error.Some? ==> r.errors[0].line == Some(SafeLoad(doc).error.value + 1)
    ensures SafeLoad(doc).Ok? && !SafeLoad(doc).value.Map? ==>
      FailedWith(r, "parse.not-a-mapping") && r.errors[0].path == "" && r.errors[0].line == Some(1)
    ensures SafeLoad(doc).Ok? && SafeLoad(doc).value.Map? && Field(SafeLoad(doc).value, "profile").GetOr(Null).Null? ==>
      FailedWith(r, "parse.missing-profile-key") && r.errors[0].path == "" && r.errors[0].line == Some(1)
    ensures (SafeLoad(doc).Ok? && SafeLoad(doc).value.Map? && Field(SafeLoad(doc).value, "profile").GetOr(Null) != Null &&
             !Field(SafeLoad(doc).value, "profile").value.Map?) ==>
      (FailedWith(r, "parse.profile-not-mapping") && r.errors[0].path == "profile" &&
       r.errors[0].line == GetLine(BuildLineIndex(doc), "profile"))
    ensures r.profile.Some? <==> r.errors == []
    ensures r.profile.Some? ==>
      (SafeLoad(doc).Ok? && Field(SafeLoad(doc).value, "profile").Some? &&
       DecodeProfile(Field(SafeLoad(doc).value, "profile").value) == Ok(r.profile.value))
  {
    var ix := BuildLineIndex(doc);
    match SafeLoad(doc)
    case Err(line) =>
      var l := if line.Some? then Some(line.value + 1) else None;
      ParseResult(None, [Finding("parse.yaml-syntax", "", Message("YAML syntax error: {exc}", []), Error, l)], ix)
    case Ok(raw) =>
      if !raw.Map? then
        ParseResult(None, [Finding("parse.not-a-mapping", "", Message("Profile must be a YAML mapping. Start with 'profile:' at the top of the file.", []), Error, Some(1))], ix)
      else
        var data := Field(raw, "profile").GetOr(Null);
        if data.Null? then
          ParseResult(None, [Finding("parse.missing-profile-key", "", Message("Missing top-level 'profile' key", []), Error, Some(1))], ix)
        else if !data.Map? then
          ParseResult(None, [Finding("parse.profile-not-mapping", "profile", Message("'profile' must be a mapping", []), Error, GetLine(ix, "profile"))], ix)
        else
          match DecodeProfile(data)
          case Ok(p) => ParseResult(Some(p), [], ix)
          case Err(es) => ParseResult(None, PydanticErrors(es, ix), ix)
  }

  /** Model-validation failures are reported one per error, each under `profile`. */
  lemma PydanticFailure(doc: Document)
    requires SafeLoad(doc).Ok? && SafeLoad(doc).value.Map?
    requires Field(SafeLoad(doc).value, "profile").Some? && Field(SafeLoad(doc).value, "profile").value.Map?
    requires DecodeProfile(Field(SafeLoad(doc).value, "profile").value).Err?
    ensures ParseProfile(doc).profile.None?
    ensures |ParseProfile(doc).errors| == |DecodeProfile(Field(SafeLoad(doc).value, "profile").value).error|
    ensures forall i :: 0 <= i < |ParseProfile(doc).errors| ==>
      (ParseProfile(doc).errors[i].ruleId == "parse.pydantic" &&
       ParseProfile(doc).errors[i].line == GetLine(BuildLineIndex(doc), ParseProfile(doc).errors[i].path))
  {
  }

  /** `profile: {}` reads as the profile with every field at its default. */
  lemma EmptyProfileParses(doc: Document)
    requires SafeLoad(doc) == Ok(Map([Entry("profile", Map([]))]))
    ensures ParseProfile(doc).profile == Some(EmptyProfile)
    ensures ParseProfile(doc).errors == []
  {
    assert Field(Map([Entry("profile", Map([]))]), "profile") == Some(Map([]));
  }
}
