/**
 Rule category 6, choice groups (`validation/rules_choice.py`): the
 profile must respect the schema's `xs:choice` groups. A mandatory group
 needs a declared member, a `choice:` block needs two alternatives, the
 always-present children may not mix branches of an exclusive group, and
 the `choice:` members must be schema children that are not also
 always present. Every report is an ERROR.
 */
module RulesChoice {
  import opened Wrappers
  import opened Strings
  import opened Dicts
  import opened Errors
  import opened Profile
  import opened Schema
  import opened ChoiceParser
  import opened YamlParser
  import opened RuleKit

  const Ids: set<string> := {
    "choice.required-group-empty", "choice.incomplete-branches", "choice.exclusive-branch-conflict",
    "choice.branch-invalid-child", "choice.branch-overlap"}

  // Message wordings, with `{...}` marking the interpolated arguments.
  const GroupEmptyWording: string := "<{elem}> requires at least one child from a choice group but none are declared. Available: [{branches}]"
  const NoChoicesWording: string := "<{elem}> has a 'choice:' with no children. " + "Add at least 2 exclusive child elements."
  const OneChoiceWording: string := "<{elem}> has a 'choice:' with only {n} child. " + "A choice requires at least 2 exclusive children."
  const ConflictWording: string := "<{elem}> has an exclusive choice group: '{first}' and '{other}' cannot both appear in children. Use 'choice:' to express exclusive branches. Conflicting: {members}"
  const InvalidMemberWording: string := "<{child}> is not a valid child of <{elem}> per the XSD."
  const OverlapWording: string := "<{child}> appears in both 'children:' and 'choice:' of <{elem}>. An element cannot be both always-present and exclusive."

  function ChildrenPath(elemName: string): string
  {
    Dot(ElemPath(elemName), "children")
  }

  function ChoicePath(elemName: string): string
  {
    Dot(ChildrenPath(elemName), "choice")
  }

  /** `branch.label or branch.branch_id`: an empty label counts as none. */
  function BranchLabel(b: ChoiceBranch): (r: string)
    ensures b.caption.Some? && b.caption.value != "" ==> r == b.caption.value
    ensures b.caption.None? || b.caption.value == "" ==> r == b.branchId
  {
    if b.caption.Some? && b.caption.value != "" then b.caption.value else b.branchId
  }

  // ---------------------------------------------------------------------
  // choice.required-group-empty
  // ---------------------------------------------------------------------

  /** Every name the profile lists under the element: always-present children and `choice:` members. */
  function DeclaredNames(rs: ElementRestriction): (r: set<string>)
    ensures forall c :: c in r <==> c in Keys(rs.children) || c in Keys(rs.exclusiveChildren)
  {
    KeySet(rs.children) + KeySet(rs.exclusiveChildren)
  }

  /** A mandatory group none of whose members is declared. */
  predicate Unmet(g: ChoiceGroup, declared: set<string>)
  {
    g.minOccurs >= 1 && AllElements(g) * declared == {}
  }

  /** `f"{label}: {', '.join(sorted(elements)[:5])}{suffix}"`. */
  function BranchDescription(b: ChoiceBranch): (r: string)
  {
    var names := SortSet(b.elements);
    var examples := if |names| > 5 then names[..5] else names;
    var suffix := if |b.elements| > 5 then " (+" + NatToString(|b.elements| - 5) + " more)" else "";
    BranchLabel(b) + ": " + Join(examples, ", ") + suffix
  }

  /** The report's line is the `children` key's, else the element key's (Python's `or`, so line 0 also falls back). */
  function GroupEmpty(elemName: string, g: ChoiceGroup, ix: LineIndex): (e: ValidationError)
    ensures e.ruleId == "choice.required-group-empty" && e.severity == Error && e.path == ChildrenPath(elemName)
    ensures GetLine(ix, ChildrenPath(elemName)).Some? && GetLine(ix, ChildrenPath(elemName)).value != 0 ==>
      e.line == GetLine(ix, ChildrenPath(elemName))
    ensures GetLine(ix, ChildrenPath(elemName)).None? || GetLine(ix, ChildrenPath(elemName)).value == 0 ==>
      e.line == GetLine(ix, ElemPath(elemName))
  {
    var descriptions := seq(|g.branches|, i requires 0 <= i < |g.branches| => BranchDescription(g.branches[i]));
    var line := match GetLine(ix, ChildrenPath(elemName))
      case Some(n) => if n != 0 then Some(n) else GetLine(ix, ElemPath(elemName))
      case None => GetLine(ix, ElemPath(elemName));
    Finding("choice.required-group-empty", ChildrenPath(elemName), Message(GroupEmptyWording, [elemName, Join(descriptions, "; ")]), Error, line)
  }

  /** One report per mandatory group of the element with no declared member, in group order. */
  function EmptyGroupReports(s: AknSchema, ix: LineIndex, elemName: string, rs: ElementRestriction): (r: seq<ValidationError>)
    ensures forall e :: e in r <==>
      exists i :: (0 <= i < |GetChoiceGroups(s, elemName)| && Unmet(GetChoiceGroups(s, elemName)[i], DeclaredNames(rs)) &&
        e == GroupEmpty(elemName, GetChoiceGroups(s, elemName)[i], ix))
    ensures (forall g :: g in GetChoiceGroups(s, elemName) ==> !Unmet(g, DeclaredNames(rs))) ==> r == []
    ensures Tagged(r, Ids, {Error})
  {
    var declared := DeclaredNames(rs);
    var gs := GetChoiceGroups(s, elemName);
    var keep := (i: nat, g: ChoiceGroup) => Unmet(g, declared);
    var mk := (i: nat, g: ChoiceGroup) => GroupEmpty(elemName, g, ix);
    var r := Select(gs, keep, mk);
    assert forall i :: 0 <= i < |gs| ==> keep(i, gs[i]) == Unmet(gs[i], declared) && mk(i, gs[i]) == GroupEmpty(elemName, gs[i], ix);
    assert Tagged(r, Ids, {Error}) by {
      forall k | 0 <= k < |r| ensures r[k].ruleId in Ids && r[k].severity == Error {
        assert r[k] in r;
      }
    }
    r
  }

  /** `_check_required_group_empty` for one entry: nothing for an unknown element. */
  function RequiredGroupErrors(s: AknSchema, ix: LineIndex, elemName: string, rs: ElementRestriction): (r: seq<ValidationError>)
    ensures !HasElement(s, elemName) ==> r == []
    ensures HasElement(s, elemName) ==> r == EmptyGroupReports(s, ix, elemName, rs)
    ensures Tagged(r, Ids, {Error})
  {
    if !HasElement(s, elemName) then [] else EmptyGroupReports(s, ix, elemName, rs)
  }

  // ---------------------------------------------------------------------
  // choice.incomplete-branches
  // ---------------------------------------------------------------------

  function IncompleteChoice(elemName: string, n: nat, line: int): (e: ValidationError)
    ensures e.ruleId == "choice.incomplete-branches" && e.severity == Error && e.path == ChoicePath(elemName)
    ensures e.line == Some(line)
  {
    var msg := if n == 0 then Message(NoChoicesWording, [elemName]) else Message(OneChoiceWording, [elemName, NatToString(n)]);
    Finding("choice.incomplete-branches", ChoicePath(elemName), msg, Error, Some(line))
  }

  /**
   `_check_incomplete_branches` for one entry: a `choice:` key recorded
   in the line index with fewer than two members gets one report. The
   schema is not consulted.
   */
  function IncompleteErrors(ix: LineIndex, elemName: string, rs: ElementRestriction): (r: seq<ValidationError>)
    ensures |r| <= 1
    ensures r != [] <==> GetLine(ix, ChoicePath(elemName)).Some? && |rs.exclusiveChildren| < 2
    ensures r != [] ==> r[0] == IncompleteChoice(elemName, |rs.exclusiveChildren|, GetLine(ix, ChoicePath(elemName)).value)
    ensures Tagged(r, Ids, {Error})
  {
    match GetLine(ix, ChoicePath(elemName))
    case None => []
    case Some(line) =>
      if |rs.exclusiveChildren| >= 2 then [] else [IncompleteChoice(elemName, |rs.exclusiveChildren|, line)]
  }

  // ---------------------------------------------------------------------
  // choice.exclusive-branch-conflict
  // ---------------------------------------------------------------------

  /** A branch of a group with members among the always-present children: its label and that overlap. */
  datatype ActiveBranch = ActiveBranch(branchLabel: string, overlap: set<string>)

  /** The branches of `g` that share members with `declared`, in branch order. */
  function ActiveBranches(g: ChoiceGroup, declared: set<string>): (r: seq<ActiveBranch>)
    ensures |r| <= |g.branches|
    ensures forall a :: a in r <==>
      exists i :: (0 <= i < |g.branches| && g.branches[i].elements * declared != {} &&
        a == ActiveBranch(BranchLabel(g.branches[i]), g.branches[i].elements * declared))
    ensures forall a :: a in r ==> a.overlap != {} && a.overlap <= declared
  {
    Select(g.branches, (i: nat, b: ChoiceBranch) => b.elements * declared != {},
      (i: nat, b: ChoiceBranch) => ActiveBranch(BranchLabel(b), b.elements * declared))
  }

  function Conflict(elemName: string, firstLabel: string, a: ActiveBranch, ix: LineIndex): (e: ValidationError)
    requires a.overlap != {}
    ensures e.ruleId == "choice.exclusive-branch-conflict" && e.severity == Error
    ensures e.path == Dot(ChildrenPath(elemName), SetMin(a.overlap))
  {
    var child := SetMin(a.overlap);
    var path := Dot(ChildrenPath(elemName), child);
    Finding("choice.exclusive-branch-conflict", path,
      Message(ConflictWording, [elemName, firstLabel, a.branchLabel, Join(SortSet(a.overlap), ", ")]), Error, GetLine(ix, path))
  }

  /**
   The reports for one group's active branches: none for at most one,
   else one per active branch after the first, each naming the first
   branch and pointing at the smallest conflicting child.
   */
  function ConflictReports(elemName: string, active: seq<ActiveBranch>, ix: LineIndex): (r: seq<ValidationError>)
    requires forall a :: a in active ==> a.overlap != {}
    ensures |r| == if |active| <= 1 then 0 else |active| - 1
    ensures forall k :: 0 <= k < |r| ==> r[k] == Conflict(elemName, active[0].branchLabel, active[k + 1], ix)
    ensures Tagged(r, Ids, {Error})
  {
    if |active| <= 1 then []
    else
      assert forall a :: a in active[1..] ==> a in active;
      seq(|active| - 1, k requires 0 <= k < |active| - 1 => Conflict(elemName, active[0].branchLabel, active[1..][k], ix))
  }

  /** `_check_exclusive_branch_conflict` for one group: only exclusive groups are examined. */
  function GroupConflicts(elemName: string, g: ChoiceGroup, declared: set<string>, ix: LineIndex): (r: seq<ValidationError>)
    ensures !g.exclusive ==> r == []
    ensures g.exclusive ==> r == ConflictReports(elemName, ActiveBranches(g, declared), ix)
    ensures Tagged(r, Ids, {Error})
  {
    if !g.exclusive then [] else ConflictReports(elemName, ActiveBranches(g, declared), ix)
  }

  /** An exclusive group whose always-present members all sit in one branch produces no conflict. */
  lemma OneActiveBranchNoConflict(elemName: string, g: ChoiceGroup, declared: set<string>, ix: LineIndex, j: nat)
    requires forall i :: 0 <= i < |g.branches| && i != j ==> g.branches[i].elements * declared == {}
    ensures GroupConflicts(elemName, g, declared, ix) == []
  {
    SelectFromAtMostOne(g.branches, (i: nat, b: ChoiceBranch) => b.elements * declared != {},
      (i: nat, b: ChoiceBranch) => ActiveBranch(BranchLabel(b), b.elements * declared), 0, j);
  }

  /** `_check_exclusive_branch_conflict` for one entry: skipped without children or for an unknown element. */
  function ConflictErrors(s: AknSchema, ix: LineIndex, elemName: string, rs: ElementRestriction): (r: seq<ValidationError>)
    ensures rs.children == [] || !HasElement(s, elemName) ==> r == []
    ensures forall e :: e in r <==>
      (rs.children != [] && HasElement(s, elemName) &&
       exists i :: 0 <= i < |GetChoiceGroups(s, elemName)| && e in GroupConflicts(elemName, GetChoiceGroups(s, elemName)[i], KeySet(rs.children), ix))
    ensures Tagged(r, Ids, {Error})
  {
    if rs.children == [] || !HasElement(s, elemName) then []
    else
      var declared := KeySet(rs.children);
      var f := (i: nat, g: ChoiceGroup) => GroupConflicts(elemName, g, declared, ix);
      TaggedGather(GetChoiceGroups(s, elemName), f, Ids, {Error}, 0);
      Gather(GetChoiceGroups(s, elemName), f)
  }

  // ---------------------------------------------------------------------
  // choice.branch-invalid-child and choice.branch-overlap
  // ---------------------------------------------------------------------

  function InvalidMember(elemName: string, childName: string, ix: LineIndex): (e: ValidationError)
    ensures e.ruleId == "choice.branch-invalid-child" && e.severity == Error
    ensures e.path == Dot(ChoicePath(elemName), childName) && e.line == GetLine(ix, ChoicePath(elemName))
  {
    Finding("choice.branch-invalid-child", Dot(ChoicePath(elemName), childName),
      Message(InvalidMemberWording, [childName, elemName]), Error, GetLine(ix, ChoicePath(elemName)))
  }

  /** One report per `choice:` member that is not a schema child of the element. */
  function InvalidMemberReports(s: AknSchema, ix: LineIndex, elemName: string, rs: ElementRestriction): (r: seq<ValidationError>)
    ensures forall e :: e in r <==>
      exists i :: (0 <= i < |rs.exclusiveChildren| && rs.exclusiveChildren[i].key !in GetChildren(s, elemName) &&
        e == InvalidMember(elemName, rs.exclusiveChildren[i].key, ix))
    ensures (forall c :: c in Keys(rs.exclusiveChildren) ==> c in GetChildren(s, elemName)) ==> r == []
    ensures Tagged(r, Ids, {Error})
  {
    var xs := rs.exclusiveChildren;
    var known := GetChildren(s, elemName);
    var keep := (i: nat, c: Entry<Option<string>>) => c.key !in known;
    var mk := (i: nat, c: Entry<Option<string>>) => InvalidMember(elemName, c.key, ix);
    var r := Select(xs, keep, mk);
    assert forall i :: 0 <= i < |xs| ==> keep(i, xs[i]) == (xs[i].key !in known) && mk(i, xs[i]) == InvalidMember(elemName, xs[i].key, ix);
    assert Tagged(r, Ids, {Error}) by {
      forall k | 0 <= k < |r| ensures r[k].ruleId in Ids && r[k].severity == Error {
        assert r[k] in r;
      }
    }
    assert (forall c :: c in Keys(xs) ==> c in known) ==> forall i :: 0 <= i < |xs| ==> xs[i].key in known by {
      assert forall i :: 0 <= i < |xs| ==> Keys(xs)[i] == xs[i].key;
    }
    r
  }

  /** `_check_branch_invalid_child` for one entry: skipped without members or for an unknown element. */
  function InvalidMemberErrors(s: AknSchema, ix: LineIndex, elemName: string, rs: ElementRestriction): (r: seq<ValidationError>)
    ensures !HasElement(s, elemName) ==> r == []
    ensures HasElement(s, elemName) ==> r == InvalidMemberReports(s, ix, elemName, rs)
    ensures Tagged(r, Ids, {Error})
  {
    if rs.exclusiveChildren == [] || !HasElement(s, elemName) then [] else InvalidMemberReports(s, ix, elemName, rs)
  }

  function Overlap(elemName: string, childName: string, ix: LineIndex): (e: ValidationError)
    ensures e.ruleId == "choice.branch-overlap" && e.severity == Error
    ensures e.path == Dot(ChoicePath(elemName), childName) && e.line == GetLine(ix, ChoicePath(elemName))
  {
    Finding("choice.branch-overlap", Dot(ChoicePath(elemName), childName),
      Message(OverlapWording, [childName, elemName]), Error, GetLine(ix, ChoicePath(elemName)))
  }

  /**
   `_check_branch_overlap` for one entry: one report per `choice:` member
   that is also an always-present child. The schema is not consulted.
   */
  function OverlapErrors(elemName: string, rs: ElementRestriction, ix: LineIndex): (r: seq<ValidationError>)
    ensures forall e :: e in r <==>
      exists i :: (0 <= i < |rs.exclusiveChildren| && rs.exclusiveChildren[i].key in Keys(rs.children) &&
        e == Overlap(elemName, rs.exclusiveChildren[i].key, ix))
    ensures (forall c :: c in Keys(rs.exclusiveChildren) ==> c !in Keys(rs.children)) ==> r == []
    ensures Tagged(r, Ids, {Error})
  {
    var xs := rs.exclusiveChildren;
    var always := Keys(rs.children);
    var keep := (i: nat, c: Entry<Option<string>>) => c.key in always;
    var mk := (i: nat, c: Entry<Option<string>>) => Overlap(elemName, c.key, ix);
    var r := Select(xs, keep, mk);
    assert forall i :: 0 <= i < |xs| ==> keep(i, xs[i]) == (xs[i].key in always) && mk(i, xs[i]) == Overlap(elemName, xs[i].key, ix);
    assert Tagged(r, Ids, {Error}) by {
      forall k | 0 <= k < |r| ensures r[k].ruleId in Ids && r[k].severity == Error {
        assert r[k] in r;
      }
    }
    assert (forall c :: c in Keys(xs) ==> c !in always) ==> forall i :: 0 <= i < |xs| ==> xs[i].key !in always by {
      assert forall i :: 0 <= i < |xs| ==> Keys(xs)[i] == xs[i].key;
    }
    r
  }

  // ---------------------------------------------------------------------
  // The module.
  // ---------------------------------------------------------------------

  function CheckRequiredGroups(p: ProfileDocument, s: AknSchema, ix: LineIndex): (r: seq<ValidationError>)
    ensures forall e :: e in r <==> exists i :: 0 <= i < |p.elements| && e in RequiredGroupErrors(s, ix, p.elements[i].key, p.elements[i].val)
    ensures Tagged(r, Ids, {Error})
  {
    var f := (i: nat, en: Entry<ElementRestriction>) => RequiredGroupErrors(s, ix, en.key, en.val);
    TaggedGather(p.elements, f, Ids, {Error}, 0);
    Gather(p.elements, f)
  }

  function CheckIncompleteBranches(p: ProfileDocument, ix: LineIndex): (r: seq<ValidationError>)
    ensures forall e :: e in r <==> exists i :: 0 <= i < |p.elements| && e in IncompleteErrors(ix, p.elements[i].key, p.elements[i].val)
    ensures Tagged(r, Ids, {Error})
  {
    var f := (i: nat, en: Entry<ElementRestriction>) => IncompleteErrors(ix, en.key, en.val);
    TaggedGather(p.elements, f, Ids, {Error}, 0);
    Gather(p.elements, f)
  }

  function CheckExclusiveConflicts(p: ProfileDocument, s: AknSchema, ix: LineIndex): (r: seq<ValidationError>)
    ensures forall e :: e in r <==> exists i :: 0 <= i < |p.elements| && e in ConflictErrors(s, ix, p.elements[i].key, p.elements[i].val)
    ensures Tagged(r, Ids, {Error})
  {
    var f := (i: nat, en: Entry<ElementRestriction>) => ConflictErrors(s, ix, en.key, en.val);
    TaggedGather(p.elements, f, Ids, {Error}, 0);
    Gather(p.elements, f)
  }

  function CheckInvalidMembers(p: ProfileDocument, s: AknSchema, ix: LineIndex): (r: seq<ValidationError>)
    ensures forall e :: e in r <==> exists i :: 0 <= i < |p.elements| && e in InvalidMemberErrors(s, ix, p.elements[i].key, p.elements[i].val)
    ensures Tagged(r, Ids, {Error})
  {
    var f := (i: nat, en: Entry<ElementRestriction>) => InvalidMemberErrors(s, ix, en.key, en.val);
    TaggedGather(p.elements, f, Ids, {Error}, 0);
    Gather(p.elements, f)
  }

  function CheckOverlap(p: ProfileDocument, ix: LineIndex): (r: seq<ValidationError>)
    ensures forall e :: e in r <==> exists i :: 0 <= i < |p.elements| && e in OverlapErrors(p.elements[i].key, p.elements[i].val, ix)
    ensures Tagged(r, Ids, {Error})
  {
    var f := (i: nat, en: Entry<ElementRestriction>) => OverlapErrors(en.key, en.val, ix);
    TaggedGather(p.elements, f, Ids, {Error}, 0);
    Gather(p.elements, f)
  }

  /** `validate`: the five checks in order; every report is an ERROR. */
  function Validate(p: ProfileDocument, s: AknSchema, ix: LineIndex): (r: seq<ValidationError>)
    ensures Tagged(r, Ids, {Error})
  {
    var a := CheckRequiredGroups(p, s, ix);
    var b := CheckIncompleteBranches(p, ix);
    var c := CheckExclusiveConflicts(p, s, ix);
    var d := CheckInvalidMembers(p, s, ix);
    var e := CheckOverlap(p, ix);
    TaggedConcat(a, b, Ids, {Error});
    TaggedConcat(a + b, c, Ids, {Error});
    TaggedConcat(a + b + c, d, Ids, {Error});
    TaggedConcat(a + b + c + d, e, Ids, {Error});
    a + b + c + d + e
  }
}
