/**
 The cursor-context resolver (`validation/yaml_context.py`): from the raw
 text of a profile and a cursor line it works out, by indentation and key
 patterns alone, where in the profile tree the cursor is, which sibling
 keys already exist, and which keys of a related block must not be offered
 again. It never parses the YAML.
 */
module YamlContext {
  import opened Wrappers
  import opened Strings
  import ServerText

  /** `Scope`: where in the profile tree the cursor is. */
  datatype Scope =
    | Empty | Root | InProfile | DocumentTypes | Elements
    | ElementName | ElementBody
    | Attributes | AttributeName | AttributeBody | AttributeValues
    | Children | ChoiceBranches | Structure

  /** `CursorContext`; the column of the cursor plays no part in it. */
  datatype CursorContext = CursorContext(
    scope: Scope,
    elementName: Option<string>,
    attributeName: Option<string>,
    indentLevel: nat,
    existingKeys: seq<string>,
    crossBlockKeys: seq<string>,
    lineText: string)

  // ---------------------------------------------------------------------
  // Indentation and keys.
  // ---------------------------------------------------------------------

  /** `_indent(line)`: the number of leading spaces (spaces only, not tabs). */
  function SpaceIndent(line: string): nat
  {
    LeadingCount(line, ' ')
  }

  /** `not line.strip()`: the line is whitespace only. */
  predicate Blank(line: string)
  {
    forall k :: 0 <= k < |line| ==> IsSpace(line[k])
  }

  /** The same test as `ServerText.Blank`, which strips the line. */
  lemma BlankIsStripEmpty(line: string)
    ensures Blank(line) <==> ServerText.Blank(line)
  {
    if !Blank(line) {
      var k :| 0 <= k < |line| && !IsSpace(line[k]);
      var l := LStrip(line);
      assert |l| > 0;
      assert RStrip(l) != "" by {
        assert !IsSpace(l[0]);
      }
    }
  }

  /** The first non-blank line at or after `from`. */
  function NextNonBlank(lines: seq<string>, from: nat): (r: Option<nat>)
    ensures r.Some? ==> from <= r.value < |lines| && !Blank(lines[r.value])
    ensures r.Some? ==> forall k :: from <= k < r.value ==> Blank(lines[k])
    ensures r.None? ==> forall k :: from <= k < |lines| ==> Blank(lines[k])
    decreases |lines| - from
  {
    if from >= |lines| then None
    else if !Blank(lines[from]) then Some(from)
    else NextNonBlank(lines, from + 1)
  }

  /** The last non-blank line before `stop`. */
  function PrevNonBlank(lines: seq<string>, stop: nat): (r: Option<nat>)
    requires stop <= |lines|
    ensures r.Some? ==> r.value < stop && !Blank(lines[r.value])
    ensures r.Some? ==> forall k :: r.value < k < stop ==> Blank(lines[k])
    ensures r.None? ==> forall k :: 0 <= k < stop ==> Blank(lines[k])
  {
    if stop == 0 then None
    else if !Blank(lines[stop - 1]) then Some(stop - 1)
    else PrevNonBlank(lines, stop - 1)
  }

  /**
   `_infer_blank_line_indent(lines, line)`: the indent of the next
   non-blank line, else of the previous one, else 0.
   */
  function InferBlankIndent(lines: seq<string>, line: nat): nat
    requires line < |lines|
  {
    match NextNonBlank(lines, line + 1)
    case Some(j) => SpaceIndent(lines[j])
    case None =>
      match PrevNonBlank(lines, line)
      case Some(j) => SpaceIndent(lines[j])
      case None => 0
  }

  /** The first non-blank line from `from` on is `j` when every line between is blank. */
  lemma {:induction false} NextIs(lines: seq<string>, from: nat, j: nat)
    requires from <= j < |lines| && !Blank(lines[j])
    requires forall k :: from <= k < j ==> Blank(lines[k])
    ensures NextNonBlank(lines, from) == Some(j)
    decreases j - from
  {
    if from < j {
      NextIs(lines, from + 1, j);
    }
  }

  /** The last non-blank line before `stop` is `j` when every line between is blank. */
  lemma {:induction false} PrevIs(lines: seq<string>, stop: nat, j: nat)
    requires j < stop <= |lines| && !Blank(lines[j])
    requires forall k :: j < k < stop ==> Blank(lines[k])
    ensures PrevNonBlank(lines, stop) == Some(j)
    decreases stop
  {
    if j < stop - 1 {
      PrevIs(lines, stop - 1, j);
    }
  }

  /** A non-blank line below the cursor with only blank lines between decides the indent. */
  lemma InferFromNext(lines: seq<string>, line: nat, j: nat)
    requires line < j < |lines| && !Blank(lines[j])
    requires forall k :: line < k < j ==> Blank(lines[k])
    ensures InferBlankIndent(lines, line) == SpaceIndent(lines[j])
  {
    NextIs(lines, line + 1, j);
  }

  /** With nothing but blank lines below, the nearest non-blank line above decides. */
  lemma InferFromPrevious(lines: seq<string>, line: nat, j: nat)
    requires j < line < |lines| && !Blank(lines[j])
    requires forall k :: j < k < |lines| && k != line ==> Blank(lines[k])
    ensures InferBlankIndent(lines, line) == SpaceIndent(lines[j])
  {
    assert NextNonBlank(lines, line + 1).None?;
    PrevIs(lines, line, j);
  }

  /** With no other non-blank line anywhere, the indent is 0. */
  lemma InferAlone(lines: seq<string>, line: nat)
    requires line < |lines|
    requires forall k :: 0 <= k < |lines| && k != line ==> Blank(lines[k])
    ensures InferBlankIndent(lines, line) == 0
  {
  }

  /** The first character of a key: `[A-Za-z_]`. */
  predicate KeyStart(c: char)
  {
    IsAsciiLetter(c) || c == '_'
  }

  /** A key the pattern `^(\s*)([A-Za-z_][\w-]*):` captures. */
  predicate IsKey(s: string)
  {
    |s| > 0 && KeyStart(s[0]) && forall k :: 0 <= k < |s| ==> ServerText.NameChar(s[k])
  }

  /** The result of `_parse_key`: an indent and, on a key line, the key. */
  datatype ParsedKey = ParsedKey(indent: nat, key: Option<string>)

  /**
   `_parse_key(line)`: on a line `whitespace key ":" rest` the width of the
   whitespace and the key; on any other line the number of leading spaces
   and no key.
   */
  function ParseKey(line: string): (r: ParsedKey)
    ensures r.key.Some? ==> IsKey(r.key.value)
    ensures r.key.Some? ==>
      var n := |r.key.value|;
      r.indent + n < |line| && ServerText.AllSpace(line[..r.indent])
      && line[r.indent..r.indent + n] == r.key.value && line[r.indent + n] == ':'
    ensures r.key.None? ==> r.indent == SpaceIndent(line)
  {
    var p := LeadingSpace(line);
    var rest := line[p..];
    if |rest| == 0 || !KeyStart(rest[0]) then ParsedKey(SpaceIndent(line), None)
    else
      var n := ServerText.NameRun(rest);
      if n < |rest| && rest[n] == ':' then
        assert line[p..p + n] == rest[..n];
        ParsedKey(p, Some(rest[..n]))
      else ParsedKey(SpaceIndent(line), None)
  }

  /** Conversely, every line `whitespace key ":" rest` parses to that key at that indent. */
  lemma ParseKeyOf(sp: string, key: string, tail: string)
    requires ServerText.AllSpace(sp) && IsKey(key)
    ensures ParseKey(sp + key + ":" + tail) == ParsedKey(|sp|, Some(key))
  {
    var line := sp + key + ":" + tail;
    var rest := key + ":" + tail;
    ServerText.LeadingSpaceOf(sp, rest);
    assert line == sp + rest;
    assert line[|sp|..] == rest;
    ServerText.NameRunOf(key, ":" + tail);
    assert rest == key + (":" + tail);
  }

  /** Spaces are whitespace, so a key's indent is at least the line's count of spaces. */
  lemma {:induction false} SpacesAreWhitespace(line: string)
    ensures SpaceIndent(line) <= LeadingSpace(line)
    decreases |line|
  {
    if |line| > 0 && line[0] == ' ' {
      SpacesAreWhitespace(line[1..]);
    }
  }

  /** Every line of the document parsed once: the scans below walk these results. */
  function Parsed(lines: seq<string>): (ks: seq<ParsedKey>)
    ensures |ks| == |lines|
    ensures forall i :: 0 <= i < |lines| ==> ks[i] == ParseKey(lines[i])
  {
    seq(|lines|, i requires 0 <= i < |lines| => ParseKey(lines[i]))
  }

  /** The parsed line holds the key `key` at indent `at`. */
  predicate KeyAt(k: ParsedKey, at: int, key: string)
  {
    k.key == Some(key) && k.indent == at
  }

  /** Some line in `[from, stop)` holds the key `key` at indent `at`. */
  ghost predicate HasKeyAt(ks: seq<ParsedKey>, from: nat, stop: nat, at: int, key: string)
    requires from <= stop <= |ks|
  {
    exists i :: from <= i < stop && KeyAt(ks[i], at, key)
  }

  /** A key line indented below `bound`. */
  predicate ParentOf(k: ParsedKey, bound: int)
  {
    k.key.Some? && k.indent < bound
  }

  // ---------------------------------------------------------------------
  // The key stack.
  // ---------------------------------------------------------------------

  /** The key line nearest above `i` that is indented below `bound`. */
  function NearestParent(ks: seq<ParsedKey>, i: nat, bound: int): (r: Option<nat>)
    requires i <= |ks|
    ensures r.Some? ==> r.value < i && ParentOf(ks[r.value], bound)
    ensures r.Some? ==> forall k :: r.value < k < i ==> !ParentOf(ks[k], bound)
    ensures r.None? ==> forall k :: 0 <= k < i ==> !ParentOf(ks[k], bound)
  {
    if i == 0 then None
    else if ParentOf(ks[i - 1], bound) then Some(i - 1)
    else NearestParent(ks, i - 1, bound)
  }

  /** The stack entry of a key line: its indent and key. */
  function Entry(k: ParsedKey): (int, string)
    requires k.key.Some?
  {
    (k.indent, k.key.value)
  }

  /**
   The backward walk of `_build_key_stack` over the lines above `i`,
   outermost key first: each key line indented below everything taken so
   far is taken, and the walk ends at a key of indent 0.
   */
  function Ancestors(ks: seq<ParsedKey>, i: nat, bound: int): seq<(int, string)>
    requires i <= |ks|
  {
    if i == 0 then []
    else if !ParentOf(ks[i - 1], bound) then Ancestors(ks, i - 1, bound)
    else if ks[i - 1].indent == 0 then [Entry(ks[i - 1])]
    else Ancestors(ks, i - 1, ks[i - 1].indent) + [Entry(ks[i - 1])]
  }

  /** Indents below `bound` and strictly increasing, with only the outermost allowed to be 0. */
  predicate Nested(r: seq<(int, string)>, bound: int)
  {
    (forall j :: 0 <= j < |r| ==> r[j].0 < bound)
    && (forall j :: 0 < j < |r| ==> 0 < r[j].0 && r[j - 1].0 < r[j].0)
  }

  /** The walk's stack is nested below its bound. */
  lemma {:induction false} AncestorsOrdered(ks: seq<ParsedKey>, i: nat, bound: int)
    requires i <= |ks|
    ensures Nested(Ancestors(ks, i, bound), bound)
  {
    if i > 0 {
      if !ParentOf(ks[i - 1], bound) {
        AncestorsOrdered(ks, i - 1, bound);
      } else if ks[i - 1].indent != 0 {
        var ind := ks[i - 1].indent;
        AncestorsOrdered(ks, i - 1, ind);
        NestedExtend(Ancestors(ks, i - 1, ind), ind, Entry(ks[i - 1]), bound);
      }
    }
  }

  /** An entry indented between a nested stack's bound and a wider bound extends it. */
  lemma NestedExtend(a: seq<(int, string)>, ind: int, e: (int, string), bound: int)
    requires Nested(a, ind) && e.0 == ind && 0 < ind < bound
    ensures Nested(a + [e], bound)
  {
    var r := a + [e];
    forall j | 0 < j < |r|
      ensures 0 < r[j].0 && r[j - 1].0 < r[j].0
    {
      assert r[j - 1] == a[j - 1];
    }
  }

  /**
   The stack is the chain of nearest parents: the innermost ancestor is
   the nearest key line indented below the bound, and the rest of the
   stack is that line's own chain.
   */
  lemma {:induction false} AncestorsAreParentChain(ks: seq<ParsedKey>, i: nat, bound: int)
    requires i <= |ks|
    ensures NearestParent(ks, i, bound).None? ==> Ancestors(ks, i, bound) == []
    ensures NearestParent(ks, i, bound).Some? ==>
      var p := NearestParent(ks, i, bound).value;
      var ind := ks[p].indent;
      Ancestors(ks, i, bound)
      == (if ind == 0 then [] else Ancestors(ks, p, ind)) + [Entry(ks[p])]
  {
    if i > 0 && !ParentOf(ks[i - 1], bound) {
      AncestorsAreParentChain(ks, i - 1, bound);
    }
  }

  /** The indent the cursor line stands at: its spaces, or for an empty line the inferred one. */
  function TargetIndent(lines: seq<string>, cursor: nat): nat
    requires cursor < |lines|
  {
    if lines[cursor] == "" then InferBlankIndent(lines, cursor) else SpaceIndent(lines[cursor])
  }

  /**
   `_build_key_stack(lines, cursor_line)`: the ancestors of the cursor
   line, outermost first, then the cursor line's own key if it has one.
   */
  function BuildKeyStack(lines: seq<string>, cursor: nat): (r: seq<(int, string)>)
    requires cursor < |lines|
    ensures forall j :: 0 < j < |r| ==> r[j - 1].0 < r[j].0
    ensures ParseKey(lines[cursor]).key.Some? ==> |r| > 0 && r[|r| - 1] == Entry(ParseKey(lines[cursor]))
    ensures ParseKey(lines[cursor]).key.None? ==> r == Ancestors(Parsed(lines), cursor, TargetIndent(lines, cursor))
  {
    var ks := Parsed(lines);
    var stack := Ancestors(ks, cursor, TargetIndent(lines, cursor));
    AncestorsOrdered(ks, cursor, TargetIndent(lines, cursor));
    assert Nested(stack, TargetIndent(lines, cursor));
    var own := ParseKey(lines[cursor]);
    if own.key.Some? then
      OwnKeyInside(lines, cursor, own);
      stack + [Entry(own)]
    else stack
  }

  /** A key line's own indent is at least the indent it stands at, so it sits below every ancestor. */
  lemma OwnKeyInside(lines: seq<string>, cursor: nat, own: ParsedKey)
    requires cursor < |lines| && own == ParseKey(lines[cursor]) && own.key.Some?
    ensures TargetIndent(lines, cursor) <= own.indent
  {
    SpacesAreWhitespace(lines[cursor]);
  }

  function Names(stack: seq<(int, string)>): (r: seq<string>)
    ensures |r| == |stack|
    ensures forall j :: 0 <= j < |r| ==> r[j] == stack[j].1
  {
    seq(|stack|, j requires 0 <= j < |stack| => stack[j].1)
  }

  // ---------------------------------------------------------------------
  // The scope decision table.
  // ---------------------------------------------------------------------

  /** The scope with the element and attribute it names. */
  datatype Resolved = Resolved(scope: Scope, element: Option<string>, attribute: Option<string>)

  predicate UnderProfile(names: seq<string>)
  {
    |names| >= 1 && names[0] == "profile"
  }

  /** The stack passes through `profile`, `elements` and an element name. */
  predicate UnderElement(names: seq<string>)
  {
    |names| >= 3 && names[0] == "profile" && names[1] == "elements"
  }

  /** The stack passes through an element's `sub` section. */
  predicate InSection(names: seq<string>, sub: string)
  {
    UnderElement(names) && |names| >= 4 && names[3] == sub
  }

  /**
   `_scope_from_stack`: the scope the key names of the stack select;
   `current` is the cursor line's own key, which tells the name of an
   element or attribute from its body.
   */
  function ScopeFromStack(names: seq<string>, current: Option<string>): (r: Resolved)
    ensures r.scope != Empty
    ensures r.scope == Root <==> !UnderProfile(names)
    ensures r.scope == InProfile <==>
      UnderProfile(names) && (|names| == 1 || names[1] !in {"documentTypes", "elements"})
    ensures r.scope == DocumentTypes <==> UnderProfile(names) && |names| >= 2 && names[1] == "documentTypes"
    ensures r.scope == Elements <==> UnderProfile(names) && |names| == 2 && names[1] == "elements"
    ensures r.element.Some? <==> UnderElement(names)
    ensures r.element.Some? ==> r.element.value == names[2]
    ensures r.scope == ElementName <==> UnderElement(names) && |names| == 3 && current == Some(names[2])
    ensures r.scope == ElementBody <==>
      UnderElement(names)
      && ((|names| == 3 && current != Some(names[2]))
          || (|names| >= 4 && names[3] !in {"attributes", "children", "structure"}))
    ensures r.scope == Attributes <==> InSection(names, "attributes") && |names| == 4
    ensures r.attribute.Some? <==> InSection(names, "attributes") && |names| >= 5
    ensures r.attribute.Some? ==> r.attribute.value == names[4]
    ensures r.scope == AttributeName <==>
      InSection(names, "attributes") && |names| == 5 && current == Some(names[4])
    ensures r.scope == AttributeBody <==>
      InSection(names, "attributes")
      && ((|names| == 5 && current != Some(names[4])) || (|names| >= 6 && names[5] != "values"))
    ensures r.scope == AttributeValues <==>
      InSection(names, "attributes") && |names| >= 6 && names[5] == "values"
    ensures r.scope == ChoiceBranches <==> InSection(names, "children") && |names| >= 5 && names[4] == "choice"
    ensures r.scope == Children <==> InSection(names, "children") && (|names| == 4 || names[4] != "choice")
    ensures r.scope == Structure <==> InSection(names, "structure")
  {
    var depth := |names|;
    if depth == 0 then Resolved(Root, None, None)
    else if depth == 1 then
      if names[0] == "profile" then Resolved(InProfile, None, None) else Resolved(Root, None, None)
    else if names[0] != "profile" then Resolved(Root, None, None)
    else if names[1] == "documentTypes" then Resolved(DocumentTypes, None, None)
    else if names[1] == "elements" then
      if depth == 2 then Resolved(Elements, None, None)
      else
        var element := names[2];
        if depth == 3 then
          if current == Some(element) then Resolved(ElementName, Some(element), None)
          else Resolved(ElementBody, Some(element), None)
        else if names[3] == "attributes" then
          if depth == 4 then Resolved(Attributes, Some(element), None)
          else
            var attribute := names[4];
            if depth == 5 then
              if current == Some(attribute) then Resolved(AttributeName, Some(element), Some(attribute))
              else Resolved(AttributeBody, Some(element), Some(attribute))
            else if names[5] == "values" then Resolved(AttributeValues, Some(element), Some(attribute))
            else Resolved(AttributeBody, Some(element), Some(attribute))
        else if names[3] == "children" then
          if depth >= 5 && names[4] == "choice" then Resolved(ChoiceBranches, Some(element), None)
          else Resolved(Children, Some(element), None)
        else if names[3] == "structure" then Resolved(Structure, Some(element), None)
        else Resolved(ElementBody, Some(element), None)
    else Resolved(InProfile, None, None)
  }

  // ---------------------------------------------------------------------
  // Blocks and the keys in them.
  // ---------------------------------------------------------------------

  /** The first line at or after `from` that is a key indented below `bound` (one past the end if none). */
  function BlockEnd(ks: seq<ParsedKey>, from: nat, bound: int): (e: nat)
    requires from <= |ks|
    decreases |ks| - from
    ensures from <= e <= |ks|
    ensures forall k :: from <= k < e ==> !ParentOf(ks[k], bound)
    ensures e < |ks| ==> ParentOf(ks[e], bound)
  {
    if from == |ks| || ParentOf(ks[from], bound) then from
    else BlockEnd(ks, from + 1, bound)
  }

  /** The keys at indent `at` among lines `[from, stop)`, in order, except `skip`. */
  function KeysAt(ks: seq<ParsedKey>, from: nat, stop: nat, at: int, skip: Option<string>): (r: seq<string>)
    requires from <= stop <= |ks|
    decreases stop - from
    ensures |r| <= stop - from
    ensures forall key :: key in r <==> Some(key) != skip && HasKeyAt(ks, from, stop, at, key)
  {
    if from == stop then []
    else
      var p := ks[from];
      var rest := KeysAt(ks, from + 1, stop, at, skip);
      if p.key.Some? && p.indent == at && p.key != skip then [p.key.value] + rest else rest
  }

  /** The first line in `[from, stop)` with the key `key` at indent `at`. */
  function FindKey(ks: seq<ParsedKey>, from: nat, stop: nat, at: int, key: string): (r: Option<nat>)
    requires from <= stop <= |ks|
    decreases stop - from
    ensures r.Some? ==> from <= r.value < stop && KeyAt(ks[r.value], at, key)
    ensures r.Some? ==> forall k :: from <= k < r.value ==> !KeyAt(ks[k], at, key)
    ensures r.None? ==> forall k :: from <= k < stop ==> !KeyAt(ks[k], at, key)
  {
    if from == stop then None
    else if KeyAt(ks[from], at, key) then Some(from)
    else FindKey(ks, from + 1, stop, at, key)
  }

  // ---------------------------------------------------------------------
  // Sibling keys and list items.
  // ---------------------------------------------------------------------

  /** `_LIST_ITEM_RE`: a line `whitespace "-" rest`, with the width of the whitespace. */
  function ItemIndent(line: string): Option<nat>
  {
    var p := LeadingSpace(line);
    if p < |line| && line[p] == '-' then Some(p) else None
  }

  /** The text after the dash of a list item. */
  function ItemText(line: string): string
    requires ItemIndent(line).Some?
  {
    ItemValue(line[ItemIndent(line).value + 1..])
  }

  /** The text of a list item, stripped and cut at an inline `#` comment. */
  function ItemValue(rest: string): string
  {
    var v := Strip(rest);
    match Find(v, "#")
    case None => v
    case Some(h) => Strip(v[..h])
  }

  predicate ItemAt(line: string, indent: int)
  {
    ItemIndent(line) == Some(indent)
  }

  /** A non-blank line, not an item at `indent`, with fewer than `indent` spaces: the item scan stops there. */
  predicate LeavesItems(line: string, indent: int)
  {
    !ItemAt(line, indent) && SpaceIndent(line) < indent && !Blank(line)
  }

  /** The first line at or after `from` where the item scan stops. */
  function ItemsEnd(lines: seq<string>, from: nat, indent: int): (e: nat)
    requires from <= |lines|
    decreases |lines| - from
    ensures from <= e <= |lines|
    ensures forall k :: from <= k < e ==> !LeavesItems(lines[k], indent)
    ensures e < |lines| ==> LeavesItems(lines[e], indent)
  {
    if from == |lines| || LeavesItems(lines[from], indent) then from
    else ItemsEnd(lines, from + 1, indent)
  }

  /** Per line, the text of the list item at `indent` on it, if it is one. */
  function ItemsOf(lines: seq<string>, indent: int): (r: seq<Option<string>>)
    ensures |r| == |lines|
    ensures forall i :: 0 <= i < |lines| ==>
      r[i] == if ItemAt(lines[i], indent) then Some(ItemText(lines[i])) else None
  {
    seq(|lines|, i requires 0 <= i < |lines| => if ItemAt(lines[i], indent) then Some(ItemText(lines[i])) else None)
  }

  /** The non-empty item texts among `items[from..stop]`, in order. */
  function ItemsAt(items: seq<Option<string>>, from: nat, stop: nat): (r: seq<string>)
    requires from <= stop <= |items|
    ensures forall v :: v in r <==> v != "" && exists i :: from <= i < stop && items[i] == Some(v)
    decreases stop - from
  {
    if from == stop then []
    else
      var rest := ItemsAt(items, from + 1, stop);
      if items[from].Some? && items[from].value != "" then [items[from].value] + rest else rest
  }

  /** Where the sibling block of the cursor line starts: just below its parent, or at the top. */
  function BlockStart(ks: seq<ParsedKey>, i: nat, indent: int): (s: nat)
    requires i <= |ks|
    ensures s <= i
    ensures s > 0 ==> ParentOf(ks[s - 1], indent)
    ensures forall k :: s <= k < i ==> !ParentOf(ks[k], indent)
  {
    match NearestParent(ks, i, indent)
    case None => 0
    case Some(p) => p + 1
  }

  /**
   `_collect_sibling_keys(lines, cursor_line, indent)`: the keys at
   `indent` from the line after the parent up stop the first line (past the
   first) keyed at a smaller indent, then the list items at `indent` up stop
   the first line that leaves the list.
   */
  function SiblingKeys(lines: seq<string>, cursor: nat, indent: int): (r: seq<string>)
    requires cursor < |lines|
    ensures forall key :: key in r ==>
      HasKeyAt(Parsed(lines), 0, |lines|, indent, key)
      || exists i :: 0 <= i < |lines| && ItemAt(lines[i], indent) && ItemText(lines[i]) == key
    ensures var ks := Parsed(lines);
      var start := BlockStart(ks, cursor, indent);
      forall i, key :: start <= i < BlockEnd(ks, start + 1, indent) && KeyAt(ks[i], indent, key) ==> key in r
  {
    var ks := Parsed(lines);
    var start := BlockStart(ks, cursor, indent);
    var e := BlockEnd(ks, start + 1, indent);
    var items := ItemsOf(lines, indent);
    var stop := ItemsEnd(lines, start + 1, indent);
    SiblingFacts(lines, ks, start, e, items, stop, indent);
    KeysAt(ks, start, e, indent, None) + ItemsAt(items, start, stop)
  }

  lemma SiblingFacts(lines: seq<string>, ks: seq<ParsedKey>, start: nat, e: nat, items: seq<Option<string>>, stop: nat, indent: int)
    requires |ks| == |lines| && start <= e <= |lines| && start <= stop <= |lines| && items == ItemsOf(lines, indent)
    ensures var r := KeysAt(ks, start, e, indent, None) + ItemsAt(items, start, stop);
      forall key :: key in r ==>
        HasKeyAt(ks, 0, |lines|, indent, key)
        || exists i :: 0 <= i < |lines| && ItemAt(lines[i], indent) && ItemText(lines[i]) == key
    ensures var r := KeysAt(ks, start, e, indent, None) + ItemsAt(items, start, stop);
      forall i, key :: start <= i < e && KeyAt(ks[i], indent, key) ==> key in r
  {
    var keys := KeysAt(ks, start, e, indent, None);
    var found := ItemsAt(items, start, stop);
    forall key | key in keys + found
      ensures HasKeyAt(ks, 0, |lines|, indent, key)
        || exists i :: 0 <= i < |lines| && ItemAt(lines[i], indent) && ItemText(lines[i]) == key
    {
      if key in keys {
        var i :| start <= i < e && KeyAt(ks[i], indent, key);
        assert 0 <= i < |lines|;
      } else {
        assert key in found;
        var i :| start <= i < stop && items[i] == Some(key);
        assert ItemAt(lines[i], indent) && ItemText(lines[i]) == key;
      }
    }
    forall i, key | start <= i < e && KeyAt(ks[i], indent, key)
      ensures key in keys + found
    {
      assert key in keys;
    }
  }

  // ---------------------------------------------------------------------
  // Keys of the related block.
  // ---------------------------------------------------------------------

  /** The nearest `children:` key above `i` indented below `indent`, unless a key below `indent - 2` comes first. */
  function ChildrenLine(ks: seq<ParsedKey>, i: nat, indent: int): (r: Option<nat>)
    requires i <= |ks|
    ensures r.Some? ==> r.value < i && ks[r.value].key == Some("children") && ks[r.value].indent < indent
    ensures r.Some? ==> forall k :: r.value < k < i ==> !ParentOf(ks[k], indent - 2)
  {
    if i == 0 then None
    else
      var p := ks[i - 1];
      if p.key == Some("children") && p.indent < indent then Some(i - 1)
      else if ParentOf(p, indent - 2) then None
      else ChildrenLine(ks, i - 1, indent)
  }

  /**
   `_collect_cross_block_keys`: in a `children` block, the keys nested one
   level under its `choice:` entry; inside a `choice` block, the keys of the
   enclosing `children:` block at the cursor's indent, except `choice`;
   nothing in any other scope.
   */
  function CrossBlockKeys(lines: seq<string>, cursor: nat, indent: int, scope: Scope): (r: seq<string>)
    requires cursor < |lines|
    ensures scope != Children && scope != ChoiceBranches ==> r == []
    ensures scope == ChoiceBranches ==> "choice" !in r
    ensures scope == Children ==> forall key :: key in r ==> HasKeyAt(Parsed(lines), 0, |lines|, indent + 2, key)
    ensures scope == ChoiceBranches ==> forall key :: key in r ==> HasKeyAt(Parsed(lines), 0, |lines|, indent, key)
  {
    var ks := Parsed(lines);
    if scope == Children then
      var start := BlockStart(ks, cursor + 1, indent);
      var end := if start < |ks| then BlockEnd(ks, start + 1, indent) else start;
      match FindKey(ks, start, end, indent, "choice")
      case None => []
      case Some(c) => KeysAt(ks, c + 1, BlockEnd(ks, c + 1, indent + 1), indent + 2, None)
    else if scope == ChoiceBranches then
      if indent - 2 < 0 then []
      else
        match ChildrenLine(ks, cursor + 1, indent)
        case None => []
        case Some(c) => KeysAt(ks, c + 1, BlockEnd(ks, c + 1, indent - 1), indent, Some("choice"))
    else []
  }

  // ---------------------------------------------------------------------
  // The resolver.
  // ---------------------------------------------------------------------

  /** The cursor line, clamped to the last line. */
  function Clamp(line: nat, count: nat): (r: nat)
    requires count > 0
    ensures r < count
    ensures line < count ==> r == line
  {
    if line >= count then count - 1 else line
  }

  predicate AllBlank(lines: seq<string>)
  {
    forall i :: 0 <= i < |lines| ==> Blank(lines[i])
  }

  /**
   `resolve_context(source, line, character)`: `EMPTY` for a document of
   blank lines; otherwise the scope the key stack of the (clamped) cursor
   line selects, with the sibling and related-block keys.
   */
  function ResolveContext(source: string, line: nat, character: nat): (r: CursorContext)
    ensures r.scope == Empty <==> AllBlank(SplitLines(source))
    ensures r.scope == Empty ==> r == CursorContext(Empty, None, None, 0, [], [], "")
    ensures r.scope != Empty ==>
      |SplitLines(source)| > 0 && r.lineText == SplitLines(source)[Clamp(line, |SplitLines(source)|)]
    ensures r.scope != Children && r.scope != ChoiceBranches ==> r.crossBlockKeys == []
    ensures r.scope == ChoiceBranches ==> "choice" !in r.crossBlockKeys
    ensures r.elementName.Some? ==> r.scope !in {Empty, Root, InProfile, DocumentTypes, Elements}
  {
    ResolveLines(SplitLines(source), line)
  }

  /** The resolver on the document's lines. */
  function ResolveLines(lines: seq<string>, line: nat): (r: CursorContext)
    ensures r.scope == Empty <==> AllBlank(lines)
    ensures r.scope == Empty ==> r == CursorContext(Empty, None, None, 0, [], [], "")
    ensures r.scope != Empty ==> |lines| > 0 && r.lineText == lines[Clamp(line, |lines|)]
    ensures r.scope != Children && r.scope != ChoiceBranches ==> r.crossBlockKeys == []
    ensures r.scope == ChoiceBranches ==> "choice" !in r.crossBlockKeys
    ensures r.elementName.Some? ==> r.scope !in {Empty, Root, InProfile, DocumentTypes, Elements}
  {
    if AllBlank(lines) then CursorContext(Empty, None, None, 0, [], [], "")
    else
      var cursor := Clamp(line, |lines|);
      var current := lines[cursor];
      var indent := TargetIndent(lines, cursor);
      var stack := BuildKeyStack(lines, cursor);
      var existing := SiblingKeys(lines, cursor, indent);
      var resolved := ScopeFromStack(Names(stack), ParseKey(current).key);
      var cross := CrossBlockKeys(lines, cursor, indent, resolved.scope);
      CursorContext(resolved.scope, resolved.element, resolved.attribute, indent, existing, cross, current)
  }
}
