/**
 The pure text helpers of `server.py` that the editor features rest on:
 conversion of a finding into an editor diagnostic, the word under the
 cursor, the key at a `children:` line, the enclosing element of a line,
 the extent of an indented block, and the whole-document edit.

 Positions follow the Language Server Protocol: 0-based lines and
 characters. Character classes follow the rest of the model: `isalnum`
 and the regular-expression class `\w` are taken over ASCII, `\s` and
 `strip` over Python's whitespace.
 */
module ServerText {
  import opened Wrappers
  import opened Strings
  import opened Errors

  // ---------------------------------------------------------------------
  // `_error_to_diagnostic`.
  // ---------------------------------------------------------------------

  /** The editor's severity levels used here. */
  datatype DiagnosticSeverity = ErrorLevel | WarningLevel | InformationLevel

  datatype Position = Position(line: int, character: int)

  datatype Diagnostic = Diagnostic(
    start: Position,
    end: Position,
    message: Message,
    severity: DiagnosticSeverity,
    source: string,
    code: string)

  /** `_SEVERITY_MAP`; the map covers every severity, so its `Error` default is never used. */
  function SeverityLevel(s: Severity): (d: DiagnosticSeverity)
    ensures s.Error? <==> d.ErrorLevel?
    ensures s.Warning? <==> d.WarningLevel?
    ensures s.Info? <==> d.InformationLevel?
  {
    match s
    case Error => ErrorLevel
    case Warning => WarningLevel
    case Info => InformationLevel
  }

  /**
   `_error_to_diagnostic(error)`: a finding's 1-based line becomes the
   0-based line before it, a missing (or zero) line becomes line 0, a
   missing column becomes character 0; the range runs 1000 characters
   along the same line.
   */
  function ErrorToDiagnostic(e: ValidationError): (d: Diagnostic)
    ensures e.line.Some? && e.line.value != 0 ==> d.start.line + 1 == e.line.value
    ensures e.line.None? || e.line == Some(0) ==> d.start.line == 0
    ensures e.column.Some? ==> d.start.character == e.column.value
    ensures e.column.None? ==> d.start.character == 0
    ensures d.end.line == d.start.line && d.end.character == d.start.character + 1000
    ensures d.message == e.message && d.code == e.ruleId && d.source == "akn-profiler"
    ensures d.severity == SeverityLevel(e.severity)
  {
    // `(error.line or 1) - 1` and `error.column or 0`: a zero counts as missing
    var line := (if e.line.Some? && e.line.value != 0 then e.line.value else 1) - 1;
    var col := if e.column.Some? && e.column.value != 0 then e.column.value else 0;
    Diagnostic(Position(line, col), Position(line, col + 1000), e.message, SeverityLevel(e.severity), "akn-profiler", e.ruleId)
  }

  /** Distinct severities stay distinct on the editor's side. */
  lemma SeverityLevelInjective(a: Severity, b: Severity)
    requires SeverityLevel(a) == SeverityLevel(b)
    ensures a == b
  {
  }

  // ---------------------------------------------------------------------
  // `_word_at`.
  // ---------------------------------------------------------------------

  /** The characters a word under the cursor is made of: `isalnum()`, `_` and `-`. */
  predicate WordChar(c: char)
  {
    IsAlnum(c) || c == '_' || c == '-'
  }

  /** `text[s..e]` is the maximal run of word characters reaching the cursor position `c`. */
  predicate Around(text: string, c: nat, s: nat, e: nat)
  {
    && s <= c <= e <= |text|
    && (forall k :: s <= k < e ==> WordChar(text[k]))
    && (s == 0 || !WordChar(text[s - 1]))
    && (e == |text| || !WordChar(text[e]))
  }

  /** The run around a position is unique. */
  lemma AroundUnique(text: string, c: nat, s: nat, e: nat, s': nat, e': nat)
    requires Around(text, c, s, e) && Around(text, c, s', e')
    ensures s == s' && e == e'
  {
  }

  /** `r` is the run around position `c`, or `None` when that run is empty. */
  ghost predicate WordAround(text: string, c: nat, r: Option<string>)
  {
    exists s: nat, e: nat :: Around(text, c, s, e) && r == (if s < e then Some(text[s..e]) else None)
  }

  /**
   `_word_at(source, line, character)`: `None` when the line or the
   character is out of range; otherwise the maximal run of word
   characters around the cursor, or `None` when that run is empty.
   */
  method WordAt(source: string, line: nat, character: nat) returns (r: Option<string>)
    ensures line >= |SplitLines(source)| ==> r.None?
    ensures line < |SplitLines(source)| && character >= |SplitLines(source)[line]| ==> r.None?
    ensures line < |SplitLines(source)| && character < |SplitLines(source)[line]| ==>
      WordAround(SplitLines(source)[line], character, r)
  {
    var lines := SplitLines(source);
    if line >= |lines| {
      return None;
    }
    var text := lines[line];
    if character >= |text| {
      return None;
    }
    var start := character;
    while start > 0 && WordChar(text[start - 1])
      invariant 0 <= start <= character
      invariant forall k :: start <= k < character ==> WordChar(text[k])
    {
      start := start - 1;
    }
    var end := character;
    while end < |text| && WordChar(text[end])
      invariant character <= end <= |text|
      invariant forall k :: character <= k < end ==> WordChar(text[k])
    {
      end := end + 1;
    }
    r := if start < end then Some(text[start..end]) else None;
    assert Around(text, character, start, end);
  }

  // ---------------------------------------------------------------------
  // Keys at the start of a line.
  // ---------------------------------------------------------------------

  /** The characters of a key after its first: `[\w-]`. */
  predicate NameChar(c: char)
  {
    IsWordChar(c) || c == '-'
  }

  /** A key as the patterns capture it: `\w[\w-]*`. */
  predicate IsName(s: string)
  {
    |s| > 0 && IsWordChar(s[0]) && forall k :: 0 <= k < |s| ==> NameChar(s[k])
  }

  predicate AllSpace(s: string)
  {
    forall k :: 0 <= k < |s| ==> IsSpace(s[k])
  }

  /** The length of the longest prefix of `[\w-]` characters. */
  function NameRun(s: string): (n: nat)
    ensures n <= |s|
    ensures forall k :: 0 <= k < n ==> NameChar(s[k])
    ensures n < |s| ==> !NameChar(s[n])
  {
    if |s| > 0 && NameChar(s[0]) then 1 + NameRun(s[1..]) else 0
  }

  /** `text` reads `spaces name spaces ":" rest`. */
  ghost predicate LooseShape(text: string, name: string)
  {
    exists sp, gap, tail :: AllSpace(sp) && AllSpace(gap) && text == sp + name + gap + ":" + tail
  }

  /** `text` reads `spaces name ":" rest`, with at least one space. */
  ghost predicate TightShape(text: string, name: string)
  {
    exists sp, tail :: |sp| > 0 && AllSpace(sp) && text == sp + name + ":" + tail
  }

  /**
   The pattern `^\s*(\w[\w-]*)\s*:` of `_child_name_at_line`: the key of a
   line `spaces key spaces ":" rest`.
   */
  function LooseKey(text: string): (r: Option<string>)
    ensures r.Some? ==> IsName(r.value)
  {
    var p := LeadingSpace(text);
    var rest := text[p..];
    if |rest| == 0 || !IsWordChar(rest[0]) then None
    else
      var n := NameRun(rest);
      var after := rest[n..];
      var q := LeadingSpace(after);
      if q < |after| && after[q] == ':' then Some(rest[..n]) else None
  }

  /** A key found by the pattern is one the line has that shape around. */
  lemma LooseKeyShape(text: string)
    requires LooseKey(text).Some?
    ensures LooseShape(text, LooseKey(text).value)
  {
    var p := LeadingSpace(text);
    var rest := text[p..];
    var n := NameRun(rest);
    var after := rest[n..];
    var q := LeadingSpace(after);
    assert AllSpace(text[..p]);
    assert AllSpace(text[p + n..p + n + q]) by {
      assert text[p + n..p + n + q] == after[..q];
    }
    LooseShapeAt(text, p, n, q);
    assert LooseKey(text).value == rest[..n] == text[p..p + n];
  }

  lemma LooseShapeAt(text: string, p: nat, n: nat, q: nat)
    requires p + n + q < |text| && text[p + n + q] == ':'
    requires AllSpace(text[..p]) && AllSpace(text[p + n..p + n + q])
    ensures LooseShape(text, text[p..p + n])
  {
    Split4(text, p, p + n, p + n + q);
  }

  /** A string cut at three points, the last one a colon. */
  lemma Split4(text: string, a: nat, b: nat, c: nat)
    requires a <= b <= c < |text| && text[c] == ':'
    ensures text == text[..a] + text[a..b] + text[b..c] + ":" + text[c + 1..]
  {
    assert text[c..c + 1] == ":";
    assert text == text[..a] + text[a..b] + text[b..c] + text[c..c + 1] + text[c + 1..];
  }

  /** Conversely, every line of that shape yields its key. */
  lemma LooseKeyOf(sp: string, name: string, gap: string, tail: string)
    requires AllSpace(sp) && IsName(name) && AllSpace(gap)
    ensures LooseKey(sp + name + gap + ":" + tail) == Some(name)
  {
    var text := sp + name + gap + ":" + tail;
    var rest := name + gap + ":" + tail;
    LeadingSpaceOf(sp, rest);
    assert text == sp + rest;
    assert text[|sp|..] == rest;
    NameRunOf(name, gap + ":" + tail);
    assert rest == name + (gap + ":" + tail);
    assert rest[|name|..] == gap + ":" + tail;
    LeadingSpaceOf(gap, ":" + tail);
    assert gap + ":" + tail == gap + (":" + tail);
  }

  /** The pattern `^\s+(\w[\w-]*):` of `_find_element_context`: an indented key, the colon right after it. */
  function TightKey(text: string): (r: Option<string>)
    ensures r.Some? ==> IsName(r.value)
  {
    var p := LeadingSpace(text);
    var rest := text[p..];
    if p == 0 || |rest| == 0 || !IsWordChar(rest[0]) then None
    else
      var n := NameRun(rest);
      if n < |rest| && rest[n] == ':' then Some(rest[..n]) else None
  }

  lemma TightKeyShape(text: string)
    requires TightKey(text).Some?
    ensures TightShape(text, TightKey(text).value)
  {
    var p := LeadingSpace(text);
    var rest := text[p..];
    var n := NameRun(rest);
    Split4(text, p, p + n, p + n);
    assert text[p..p + n] == rest[..n];
    assert text[p + n..p + n] == "";
    assert text == text[..p] + text[p..p + n] + ":" + text[p + n + 1..];
    assert AllSpace(text[..p]);
  }

  lemma TightKeyOf(sp: string, name: string, tail: string)
    requires |sp| > 0 && AllSpace(sp) && IsName(name)
    ensures TightKey(sp + name + ":" + tail) == Some(name)
  {
    var text := sp + name + ":" + tail;
    var rest := name + ":" + tail;
    LeadingSpaceOf(sp, rest);
    assert text == sp + rest;
    assert text[|sp|..] == rest;
    NameRunOf(name, ":" + tail);
    assert rest == name + (":" + tail);
  }

  lemma {:induction false} LeadingSpaceOf(sp: string, rest: string)
    requires AllSpace(sp) && (|rest| > 0 ==> !IsSpace(rest[0]))
    ensures LeadingSpace(sp + rest) == |sp|
    decreases |sp|
  {
    if |sp| > 0 {
      assert (sp + rest)[1..] == sp[1..] + rest;
      LeadingSpaceOf(sp[1..], rest);
    } else {
      assert sp + rest == rest;
    }
  }

  lemma {:induction false} NameRunOf(name: string, rest: string)
    requires forall k :: 0 <= k < |name| ==> NameChar(name[k])
    requires |rest| > 0 && !NameChar(rest[0])
    ensures NameRun(name + rest) == |name|
    decreases |name|
  {
    if |name| > 0 {
      assert (name + rest)[1..] == name[1..] + rest;
      NameRunOf(name[1..], rest);
    } else {
      assert name + rest == rest;
    }
  }

  // ---------------------------------------------------------------------
  // `_child_name_at_line`.
  // ---------------------------------------------------------------------

  /**
   `_child_name_at_line(lines, line_idx, expected_indent)`: `None` for a
   line out of range, blank, without a colon, or whose surrounding
   whitespace is not `expected` characters wide; otherwise its leading
   key, if it has one.
   */
  function ChildNameAtLine(lines: seq<string>, idx: nat, expected: int): (r: Option<string>)
    ensures idx >= |lines| ==> r.None?
    ensures idx < |lines| && (Strip(lines[idx]) == "" || !Contains(Strip(lines[idx]), ":")) ==> r.None?
    ensures idx < |lines| && |lines[idx]| - |Strip(lines[idx])| != expected ==> r.None?
    ensures r.Some? ==> IsName(r.value) && r == LooseKey(lines[idx])
  {
    if idx >= |lines| then None
    else
      var text := lines[idx];
      var stripped := Strip(text);
      if stripped == "" || !Contains(stripped, ":") then None
      else if |text| - |stripped| != expected then None
      else LooseKey(text)
  }

  /** A `children:` entry line at the expected width yields its key. */
  lemma ChildNameOfEntry(sp: string, name: string, tail: string, expected: int)
    requires AllSpace(sp) && IsName(name)
    requires |tail| == 0 || !IsSpace(tail[|tail| - 1])
    requires |sp| == expected
    ensures ChildNameAtLine([sp + name + ":" + tail], 0, expected) == Some(name)
  {
    var text := sp + name + ":" + tail;
    var core := name + ":" + tail;
    assert LooseKey(text) == Some(name) by {
      NoGap(sp, name, tail);
    }
    assert Strip(text) == core by {
      Regroup(sp, name, ":", tail);
      assert !IsSpace(core[0]) && !IsSpace(core[|core| - 1]);
      StripEntry(sp, core);
    }
    assert Contains(core, ":") by {
      assert OccursAt(core, ":", |name|) by {
        assert core[|name|..|name| + 1] == ":";
      }
    }
    assert [text][0] == text;
  }

  lemma NoGap(sp: string, name: string, tail: string)
    requires AllSpace(sp) && IsName(name)
    ensures LooseKey(sp + name + ":" + tail) == Some(name)
  {
    LooseKeyOf(sp, name, "", tail);
    assert sp + name + "" + ":" + tail == sp + name + ":" + tail;
  }

  lemma Regroup(a: string, b: string, c: string, d: string)
    ensures a + b + c + d == a + (b + c + d)
  {
  }

  /** Stripping an indented line whose content starts and ends with non-space leaves the content. */
  lemma StripEntry(sp: string, core: string)
    requires AllSpace(sp) && |core| > 0 && !IsSpace(core[0]) && !IsSpace(core[|core| - 1])
    ensures Strip(sp + core) == core
  {
    var text := sp + core;
    LeadingSpaceOf(sp, core);
    LStripDropsLeadingSpace(text);
    assert text[|sp|..] == core;
    StripUnchanged(core);
  }

  // ---------------------------------------------------------------------
  // `_find_element_context`.
  // ---------------------------------------------------------------------

  /** `_STRUCTURAL_NAMES`: the profile's own keys, never element names. */
  const StructuralNames: set<string> := {
    "attributes", "children", "choice", "structure", "required", "values", "elements",
    "profile", "profileNote", "documentTypes", "name", "version", "description"
  }

  /** `len(ln) - len(ln.lstrip())`. */
  function Indent(ln: string): nat
  {
    |ln| - |LStrip(ln)|
  }

  /** A line naming an element: an indented key that is not a structural name. */
  predicate ElementKey(ln: string)
  {
    TightKey(ln).Some? && TightKey(ln).value !in StructuralNames
  }

  /** A line the backward walk accepts: an element key indented less than `target`. */
  predicate Enclosing(ln: string, target: int)
  {
    ElementKey(ln) && Indent(ln) < target
  }

  /** No line in `[from, to)` encloses an indent of `target`. */
  predicate NoneEnclosing(lines: seq<string>, from: nat, to: nat, target: int)
    requires to <= |lines|
  {
    forall k :: from <= k < to ==> !Enclosing(lines[k], target)
  }

  lemma NoneEnclosingGrows(lines: seq<string>, i: nat, to: nat, target: int)
    requires i < to <= |lines|
    requires NoneEnclosing(lines, i + 1, to, target) && !Enclosing(lines[i], target)
    ensures NoneEnclosing(lines, i, to, target)
  {
  }

  /**
   `_find_element_context(source, line)`: the cursor line's own element
   key if it has one; otherwise the key of the nearest line above that
   names an element at a smaller indent; `None` if there is none or the
   line is out of range. A structural key is never returned.
   */
  method FindElementContext(source: string, line: nat) returns (r: Option<string>)
    ensures r.Some? ==> r.value !in StructuralNames
    ensures line >= |SplitLines(source)| ==> r.None?
    ensures line < |SplitLines(source)| && ElementKey(SplitLines(source)[line]) ==> r == TightKey(SplitLines(source)[line])
    ensures line < |SplitLines(source)| && !ElementKey(SplitLines(source)[line]) ==>
      var lines := SplitLines(source);
      var target := Indent(lines[line]);
      && (r.None? <==> NoneEnclosing(lines, 0, line, target))
      && (r.Some? ==> exists j :: 0 <= j < line && Enclosing(lines[j], target) && r == TightKey(lines[j])
                                 && NoneEnclosing(lines, j + 1, line, target))
  {
    var lines := SplitLines(source);
    if line >= |lines| {
      return None;
    }
    var cur := lines[line];
    var m := TightKey(cur);
    if m.Some? && m.value !in StructuralNames {
      return m;
    }
    var target := Indent(cur);
    var i := line;
    while i > 0
      invariant 0 <= i <= line < |lines|
      invariant NoneEnclosing(lines, i, line, target)
      decreases i
    {
      i := i - 1;
      var ln := lines[i];
      var indent := Indent(ln);
      var mi := TightKey(ln);
      if mi.Some? && indent < target && mi.value !in StructuralNames {
        assert Enclosing(lines[i], target) && NoneEnclosing(lines, i + 1, line, target);
        return mi;
      }
      NoneEnclosingGrows(lines, i, line, target);
    }
    return None;
  }

  // ---------------------------------------------------------------------
  // `_section_end`.
  // ---------------------------------------------------------------------

  predicate Blank(ln: string)
  {
    Strip(ln) == ""
  }

  /** `len(lines[i]) - len(s)`: the whitespace around the line's content. */
  function Width(ln: string): nat
  {
    |ln| - |Strip(ln)|
  }

  /** Line `i` belongs to a block indented at `indent`: blank, or wider. */
  predicate Inside(ln: string, indent: int)
  {
    Blank(ln) || Width(ln) > indent
  }

  /** Every line after `start` up to `i` belongs to the block. */
  predicate InsideUpTo(lines: seq<string>, start: nat, i: nat, indent: int)
  {
    forall k :: start < k <= i && k < |lines| ==> Inside(lines[k], indent)
  }

  /**
   `_section_end(lines, start, indent)`: the last non-blank line of the
   block below `start`, that is, of the lines after `start` that are
   blank or wider than `indent`; `start` itself when the block has no
   content.
   */
  method SectionEnd(lines: seq<string>, start: nat, indent: int) returns (last: nat)
    ensures start <= last
    ensures last > start ==> last < |lines| && !Blank(lines[last]) && InsideUpTo(lines, start, last, indent)
    ensures forall i :: last < i < |lines| && !Blank(lines[i]) ==> !InsideUpTo(lines, start, i, indent)
  {
    last := start;
    var i := start + 1;
    while i < |lines|
      invariant start + 1 <= i
      invariant last == start || (start < last < i && last < |lines| && !Blank(lines[last]))
      invariant InsideUpTo(lines, start, i - 1, indent)
      invariant BlankBetween(lines, last, i)
    {
      var s := Strip(lines[i]);
      assert (s == "" <==> Blank(lines[i])) && |lines[i]| - |s| == Width(lines[i]);
      if s != "" {
        if |lines[i]| - |s| <= indent {
          Outside(lines, start, last, i, indent);
          return;
        }
        last := i;
      }
      InsideGrows(lines, start, i, indent);
      i := i + 1;
    }
    Exhausted(lines, start, last, i, indent);
  }

  /** Every line strictly between `last` and `i` is blank. */
  predicate BlankBetween(lines: seq<string>, last: nat, i: nat)
  {
    forall k :: last < k < i && k < |lines| ==> Blank(lines[k])
  }

  lemma InsideGrows(lines: seq<string>, start: nat, i: nat, indent: int)
    requires start < i < |lines|
    requires InsideUpTo(lines, start, i - 1, indent) && Inside(lines[i], indent)
    ensures InsideUpTo(lines, start, i, indent)
  {
  }

  /** The scan ran off the end: only blank lines follow `last`. */
  lemma Exhausted(lines: seq<string>, start: nat, last: nat, i: nat, indent: int)
    requires |lines| <= i && BlankBetween(lines, last, i)
    ensures forall j: nat :: last < j < |lines| && !Blank(lines[j]) ==> !InsideUpTo(lines, start, j, indent)
  {
  }

  /** Once a line leaves the block, every later prefix does too; before it, only blank lines follow `last`. */
  lemma Outside(lines: seq<string>, start: nat, last: nat, i: nat, indent: int)
    requires start < i < |lines| && !Inside(lines[i], indent)
    requires last < i && BlankBetween(lines, last, i)
    ensures forall j :: last < j < |lines| && !Blank(lines[j]) ==> !InsideUpTo(lines, start, j, indent)
  {
    forall j | last < j < |lines| && !Blank(lines[j])
      ensures !InsideUpTo(lines, start, j, indent)
    {
      assert i <= j;
      assert !Inside(lines[i], indent);
    }
  }

  // ---------------------------------------------------------------------
  // `_full_document_edit`.
  // ---------------------------------------------------------------------

  datatype TextEdit = TextEdit(start: Position, end: Position, newText: string)

  /**
   `_full_document_edit(uri, old_source, new_text)`: `None` exactly when
   the text is unchanged; otherwise one edit from the start of the
   document to the end of the last line `splitlines` finds.
   */
  function FullDocumentEdit(before: string, after: string): (r: Option<TextEdit>)
    ensures r.None? <==> after == before
    ensures r.Some? ==> r.value.start == Position(0, 0) && r.value.newText == after
    ensures r.Some? && SplitLines(before) == [] ==> r.value.end == Position(0, 0)
    ensures r.Some? && SplitLines(before) != [] ==>
      r.value.end == Position(|SplitLines(before)| - 1, |SplitLines(before)[|SplitLines(before)| - 1]|)
  {
    if after == before then None
    else
      var lines := SplitLines(before);
      var lastLine := if |lines| - 1 > 0 then |lines| - 1 else 0;
      var lastChar := if |lines| > 0 then |lines[lastLine]| else 0;
      Some(TextEdit(Position(0, 0), Position(lastLine, lastChar), after))
  }

  // ---------------------------------------------------------------------
  // How an editor applies such an edit.
  // ---------------------------------------------------------------------

  /** The line breaks of the Language Server Protocol: `\n`, `\r\n` and `\r`. */
  predicate LspBreak(c: char)
  {
    c == '\n' || c == '\r'
  }

  /** The length of the first line, up to its break or the end of the text. */
  function LineLength(s: string): (n: nat)
    ensures n <= |s|
    ensures forall k :: 0 <= k < n ==> !LspBreak(s[k])
    ensures n < |s| ==> LspBreak(s[n])
  {
    if |s| > 0 && !LspBreak(s[0]) then 1 + LineLength(s[1..]) else 0
  }

  /** The length of the break at `i`: two for `\r\n`, else one. */
  function LspBreakLength(s: string, i: nat): (b: nat)
    requires i < |s| && LspBreak(s[i])
    ensures 1 <= b && i + b <= |s|
  {
    if s[i] == '\r' && i + 1 < |s| && s[i + 1] == '\n' then 2 else 1
  }

  /**
   The offset in `text` an editor resolves the position `(line, ch)` to:
   a character past the end of its line means the end of that line, a
   line past the last means the end of the text.
   */
  function OffsetOf(text: string, line: nat, ch: nat): (o: nat)
    ensures o <= |text|
    decreases |text|
  {
    var n := LineLength(text);
    if line == 0 then (if ch < n then ch else n)
    else if n == |text| then |text|
    else
      var skip := n + LspBreakLength(text, n);
      skip + OffsetOf(text[skip..], line - 1, ch)
  }

  /** The text after an editor applies `e`: everything between its start and end is replaced. */
  function Apply(text: string, e: TextEdit): (r: string)
    requires e.start.line >= 0 && e.start.character >= 0 && e.end.line >= 0 && e.end.character >= 0
    requires OffsetOf(text, e.start.line, e.start.character) <= OffsetOf(text, e.end.line, e.end.character)
  {
    text[..OffsetOf(text, e.start.line, e.start.character)] + e.newText + text[OffsetOf(text, e.end.line, e.end.character)..]
  }

  /**
   The edit `_full_document_edit` builds for a document ending in a line
   break stops before that break, which therefore survives the edit: the
   document `"a\n"` rewritten to `"b\n"` becomes `"b\n\n"`.
   */
  lemma FullDocumentEditKeepsFinalBreak()
    ensures FullDocumentEdit("a\n", "b\n").Some?
    ensures FullDocumentEdit("a\n", "b\n").value.end == Position(0, 1)
    ensures Apply("a\n", FullDocumentEdit("a\n", "b\n").value) == "b\n\n"
  {
    assert SplitLines("a\n") == ["a"] by {
      assert "a\n"[1..] == "\n" && FirstBreak("\n") == Some(0);
      assert FirstBreak("a\n") == Some(1);
      assert "a\n"[..1] == "a" && "a\n"[2..] == "";
      assert SplitLines("") == [];
    }
    assert LineLength("a\n") == 1 by {
      assert LineLength("\n") == 0;
      assert "a\n"[1..] == "\n";
    }
    assert OffsetOf("a\n", 0, 1) == 1;
    assert OffsetOf("a\n", 0, 0) == 0;
  }

  /** The position of the end of `text`: the number of line breaks, then the length of the last line. */
  function EndPosition(text: string): (p: Position)
    ensures p.line >= 0 && p.character >= 0
    decreases |text|
  {
    var n := LineLength(text);
    if n == |text| then Position(0, n)
    else
      var skip := n + LspBreakLength(text, n);
      var rest := EndPosition(text[skip..]);
      Position(rest.line + 1, rest.character)
  }

  /** The end position resolves to the very end of the text. */
  lemma {:induction false} EndPositionIsEnd(text: string)
    ensures OffsetOf(text, EndPosition(text).line, EndPosition(text).character) == |text|
    decreases |text|
  {
    var n := LineLength(text);
    if n < |text| {
      var skip := n + LspBreakLength(text, n);
      EndPositionIsEnd(text[skip..]);
    }
  }

  /**
   The whole-document edit as evidently intended: `None` exactly when the
   text is unchanged, otherwise one edit from the start to the very end of
   the document, so applying it yields the new text.
   */
  function WholeDocumentEdit(before: string, after: string): (r: Option<TextEdit>)
    ensures r.None? <==> after == before
    ensures r.Some? ==> r.value.start == Position(0, 0) && r.value.newText == after
  {
    if after == before then None else Some(TextEdit(Position(0, 0), EndPosition(before), after))
  }

  lemma WholeDocumentEditReplaces(before: string, after: string)
    requires after != before
    ensures Apply(before, WholeDocumentEdit(before, after).value) == after
  {
    EndPositionIsEnd(before);
    var e := WholeDocumentEdit(before, after).value;
    assert OffsetOf(before, 0, 0) == 0;
    assert before[|before|..] == [];
    assert before[..0] == [];
  }
}
