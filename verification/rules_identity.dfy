/**
 Rule category 4, identity (`validation/rules_identity.py`): repeated
 entries inside a `structure` list, and document types without an element
 restriction. Both checks read the profile only; the schema is never
 consulted.
 */
module RulesIdentity {
  import opened Wrappers
  import opened Strings
  import opened Dicts
  import opened Errors
  import opened Profile
  import opened Schema
  import opened YamlParser
  import opened RuleKit

  const Ids: set<string> := {"identity.duplicate-structure-entry", "identity.doctype-without-element-restriction"}

  // Message wordings, with `{...}` marking the interpolated arguments.
  const DuplicateWording: string := "'{name}' appears more than once in the structure list of <{elem}> (first at index {first})"
  const UncoveredWording: string := "Document type '{dt}' is listed in documentTypes but has no corresponding entry under 'elements'. Consider adding element restrictions for <{dt}>."

  /** The first position of `x` in `st` (`|st|` when absent). */
  function FirstIndex(st: seq<string>, x: string): (r: nat)
    ensures r <= |st|
    ensures r < |st| ==> st[r] == x
    ensures forall j :: 0 <= j < r ==> st[j] != x
  {
    if st == [] then 0
    else if st[0] == x then 0
    else 1 + FirstIndex(st[1..], x)
  }

  function Duplicate(elemName: string, name: string, i: nat, first: nat, ix: LineIndex): (e: ValidationError)
    ensures e.ruleId == "identity.duplicate-structure-entry" && e.severity == Warning
    ensures e.path == At(Dot(ElemPath(elemName), "structure"), i)
  {
    var path := At(Dot(ElemPath(elemName), "structure"), i);
    Finding("identity.duplicate-structure-entry", path, Message(DuplicateWording, [name, elemName, NatToString(first)]), Warning, GetLine(ix, path))
  }

  /** Whether the name at position `j` occurred before it. */
  function Repeated(st: seq<string>): (nat, string) -> bool
  {
    (j: nat, x: string) => j <= |st| && x in st[..j]
  }

  /** The report for a repeated name at position `j`. */
  function DuplicateAt(elemName: string, st: seq<string>, ix: LineIndex): (nat, string) -> ValidationError
  {
    (j: nat, x: string) => Duplicate(elemName, x, j, FirstIndex(st, x), ix)
  }

  /** What is reported: every position whose name occurred earlier, citing the first occurrence. */
  function DuplicatesSpec(elemName: string, st: seq<string>, ix: LineIndex): (r: seq<ValidationError>)
    ensures forall e :: e in r <==>
      exists i :: (0 <= i < |st| && st[i] in st[..i] && e == Duplicate(elemName, st[i], i, FirstIndex(st, st[i]), ix))
  {
    Select(st, Repeated(st), DuplicateAt(elemName, st, ix))
  }

  /** `seen` records the first position of every name in `st[..i]`. */
  ghost predicate SeenUpTo(st: seq<string>, i: nat, seen: map<string, nat>)
    requires i <= |st|
  {
    (forall x :: x in seen <==> x in st[..i]) &&
    (forall x :: x in seen ==> seen[x] < i && st[seen[x]] == x && x !in st[..seen[x]])
  }

  /**
   The loop of `_check_duplicate_structure` from position `i` on: a name
   already in `seen` is reported with its recorded first position,
   otherwise its position is recorded.
   */
  function DuplicatesFrom(elemName: string, st: seq<string>, i: nat, seen: map<string, nat>, ix: LineIndex): (r: seq<ValidationError>)
    requires i <= |st|
    ensures forall e :: e in r ==> e.ruleId == "identity.duplicate-structure-entry" && e.severity == Warning
    decreases |st| - i
  {
    if i == |st| then []
    else if st[i] in seen then
      [Duplicate(elemName, st[i], i, seen[st[i]], ix)] + DuplicatesFrom(elemName, st, i + 1, seen, ix)
    else DuplicatesFrom(elemName, st, i + 1, seen[st[i] := i], ix)
  }

  /** `_check_duplicate_structure` for one element. */
  function DuplicateEntries(elemName: string, st: seq<string>, ix: LineIndex): (r: seq<ValidationError>)
    ensures forall e :: e in r ==> e.ruleId == "identity.duplicate-structure-entry" && e.severity == Warning
  {
    DuplicatesFrom(elemName, st, 0, map[], ix)
  }

  /** The loop with the `seen` map reports exactly what the position-wise definition says. */
  lemma {:induction false} DuplicatesFromAgree(elemName: string, st: seq<string>, i: nat, seen: map<string, nat>, ix: LineIndex)
    requires i <= |st| && SeenUpTo(st, i, seen)
    ensures DuplicatesFrom(elemName, st, i, seen, ix) ==
      SelectFrom(st, Repeated(st), DuplicateAt(elemName, st, ix), i)
    decreases |st| - i
  {
    if i < |st| {
      var x := st[i];
      if x in seen {
        SeenKnown(st, i, seen);
        DuplicatesFromAgree(elemName, st, i + 1, seen, ix);
        AgreeKnown(elemName, st, i, seen, ix);
      } else {
        SeenNew(st, i, seen);
        DuplicatesFromAgree(elemName, st, i + 1, seen[x := i], ix);
        AgreeNew(elemName, st, i, seen, ix);
      }
    }
  }

  /** The step for a name seen before: one report, citing the recorded first position. */
  lemma AgreeKnown(elemName: string, st: seq<string>, i: nat, seen: map<string, nat>, ix: LineIndex)
    requires i < |st| && st[i] in seen && st[i] in st[..i] && seen[st[i]] == FirstIndex(st, st[i])
    requires DuplicatesFrom(elemName, st, i + 1, seen, ix) == SelectFrom(st, Repeated(st), DuplicateAt(elemName, st, ix), i + 1)
    ensures DuplicatesFrom(elemName, st, i, seen, ix) == SelectFrom(st, Repeated(st), DuplicateAt(elemName, st, ix), i)
  {
    assert Repeated(st)(i, st[i]);
  }

  /** The step for a new name: no report. */
  lemma AgreeNew(elemName: string, st: seq<string>, i: nat, seen: map<string, nat>, ix: LineIndex)
    requires i < |st| && st[i] !in seen && st[i] !in st[..i]
    requires DuplicatesFrom(elemName, st, i + 1, seen[st[i] := i], ix) == SelectFrom(st, Repeated(st), DuplicateAt(elemName, st, ix), i + 1)
    ensures DuplicatesFrom(elemName, st, i, seen, ix) == SelectFrom(st, Repeated(st), DuplicateAt(elemName, st, ix), i)
  {
    assert !Repeated(st)(i, st[i]);
  }

  /** A name already seen: its recorded position is its first, and `seen` covers one more position. */
  lemma SeenKnown(st: seq<string>, i: nat, seen: map<string, nat>)
    requires i < |st| && SeenUpTo(st, i, seen) && st[i] in seen
    ensures st[i] in st[..i] && seen[st[i]] == FirstIndex(st, st[i])
    ensures SeenUpTo(st, i + 1, seen)
  {
    FirstIndexAt(st, st[i], seen[st[i]]);
    SeenAgain(st, i, seen);
  }

  lemma SeenAgain(st: seq<string>, i: nat, seen: map<string, nat>)
    requires i < |st| && SeenUpTo(st, i, seen) && st[i] in seen
    ensures SeenUpTo(st, i + 1, seen)
  {
    assert st[..i + 1] == st[..i] + [st[i]];
    forall y ensures y in seen <==> y in st[..i + 1] {
    }
  }

  /** A new name: position `i` is its first, and recording it covers one more position. */
  lemma SeenNew(st: seq<string>, i: nat, seen: map<string, nat>)
    requires i < |st| && SeenUpTo(st, i, seen) && st[i] !in seen
    ensures st[i] !in st[..i] && FirstIndex(st, st[i]) == i
    ensures SeenUpTo(st, i + 1, seen[st[i] := i])
  {
    FirstIndexAt(st, st[i], i);
    SeenRecord(st, i, seen);
  }

  lemma SeenRecord(st: seq<string>, i: nat, seen: map<string, nat>)
    requires i < |st| && SeenUpTo(st, i, seen) && st[i] !in seen
    ensures SeenUpTo(st, i + 1, seen[st[i] := i])
  {
    var x := st[i];
    var seen' := seen[x := i];
    assert st[..i + 1] == st[..i] + [x];
    forall y ensures y in seen' <==> y in st[..i + 1] {
    }
    forall y | y in seen' ensures seen'[y] < i + 1 && st[seen'[y]] == y && y !in st[..seen'[y]] {
      if y != x {
        assert seen'[y] == seen[y];
      }
    }
  }

  /** The first position of `x` is the one before which `x` does not occur. */
  lemma FirstIndexAt(st: seq<string>, x: string, k: nat)
    requires k < |st| && st[k] == x && x !in st[..k]
    ensures FirstIndex(st, x) == k
  {
    var f := FirstIndex(st, x);
    assert f >= k;
  }

  /** `_check_duplicate_structure` reports exactly the repeated positions, in order. */
  lemma DuplicateEntriesSpec(elemName: string, st: seq<string>, ix: LineIndex)
    ensures DuplicateEntries(elemName, st, ix) == DuplicatesSpec(elemName, st, ix)
  {
    assert SeenUpTo(st, 0, map[]);
    DuplicatesFromAgree(elemName, st, 0, map[], ix);
  }

  /** The first occurrence of a name is never reported: no report carries its path. */
  lemma FirstOccurrenceNotReported(elemName: string, st: seq<string>, ix: LineIndex, i: nat)
    requires i < |st| && st[i] !in st[..i]
    ensures forall e :: e in DuplicateEntries(elemName, st, ix) ==> e.path != At(Dot(ElemPath(elemName), "structure"), i)
  {
    DuplicateEntriesSpec(elemName, st, ix);
    var base := Dot(ElemPath(elemName), "structure");
    forall e | e in DuplicateEntries(elemName, st, ix) ensures e.path != At(base, i) {
      var j :| 0 <= j < |st| && st[j] in st[..j] && e == Duplicate(elemName, st[j], j, FirstIndex(st, st[j]), ix);
      if e.path == At(base, i) {
        AtInjective(base, i, j);
      }
    }
  }

  function CheckDuplicateStructure(p: ProfileDocument, ix: LineIndex): (r: seq<ValidationError>)
    ensures forall e :: e in r <==>
      exists i :: 0 <= i < |p.elements| && e in DuplicateEntries(p.elements[i].key, p.elements[i].val.structure, ix)
    ensures forall e :: e in r ==> e.ruleId == "identity.duplicate-structure-entry" && e.severity == Warning
  {
    Gather(p.elements, (i: nat, en: Entry<ElementRestriction>) => DuplicateEntries(en.key, en.val.structure, ix))
  }

  function Uncovered(dt: string, i: nat, ix: LineIndex): (e: ValidationError)
    ensures e.ruleId == "identity.doctype-without-element-restriction" && e.severity == Info
  {
    var path := At("profile.documentTypes", i);
    Finding("identity.doctype-without-element-restriction", path, Message(UncoveredWording, [dt]), Info, GetLine(ix, path))
  }

  /** `_check_doctype_element_coverage`: the document types that are not keys of `elements`. */
  function CheckDoctypeCoverage(p: ProfileDocument, ix: LineIndex): (r: seq<ValidationError>)
    ensures forall e :: e in r <==>
      exists i :: (0 <= i < |p.documentTypes| && p.documentTypes[i] !in Keys(p.elements) && e == Uncovered(p.documentTypes[i], i, ix))
    ensures forall e :: e in r ==> e.ruleId == "identity.doctype-without-element-restriction" && e.severity == Info
    ensures (forall dt :: dt in p.documentTypes ==> dt in Keys(p.elements)) ==> r == []
  {
    Select(p.documentTypes, (i: nat, dt: string) => dt !in Keys(p.elements), (i: nat, dt: string) => Uncovered(dt, i, ix))
  }

  /**
   `validate`. The schema parameter is kept for the common module
   signature; the result does not depend on it.
   */
  function Validate(p: ProfileDocument, s: AknSchema, ix: LineIndex): (r: seq<ValidationError>)
    ensures Tagged(r, Ids, {Warning, Info})
  {
    var a := CheckDuplicateStructure(p, ix);
    var b := CheckDoctypeCoverage(p, ix);
    assert Tagged(a, Ids, {Warning, Info}) by {
      assert forall i :: 0 <= i < |a| ==> a[i] in a;
    }
    assert Tagged(b, Ids, {Warning, Info}) by {
      assert forall i :: 0 <= i < |b| ==> b[i] in b;
    }
    TaggedConcat(a, b, Ids, {Warning, Info});
    a + b
  }
}
