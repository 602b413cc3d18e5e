/**
 Recovery of `xs:choice` structure from the schema document
 (`xsd/choice_parser.py`). Phase one resolves every named `xs:group` to the
 set of element names it can contain; phase two walks every named
 `xs:complexType` and turns each `xs:choice` particle into a `ChoiceGroup`
 whose branches are the choice's alternatives. Occurrence attributes follow
 section 3.9 of W3C XML Schema 1.0 Part 1: both default to 1 and
 `maxOccurs="unbounded"` has no upper bound.
 */
module ChoiceParser {
  import opened Wrappers
  import opened Strings
  import opened Dicts

  // ---------------------------------------------------------------------
  // Schema documents.
  // ---------------------------------------------------------------------

  /** The `xs:` element kinds the parser distinguishes; anything else is `Other`. */
  datatype Tag =
    | ElementTag | GroupTag | ChoiceTag | SequenceTag | AllTag | AnyTag
    | ComplexTypeTag | ComplexContentTag | ExtensionTag | RestrictionTag | OtherTag

  /** An element of the parsed schema document. */
  datatype XsdNode = XsdNode(tag: Tag, attrs: map<string, string>, children: seq<XsdNode>)

  /** `node.get(name)` read through Python truthiness: absent and empty are both "". */
  function Attr(n: XsdNode, name: string): string
  {
    if name in n.attrs then n.attrs[name] else ""
  }

  /** `node.get(name, default)`. */
  function AttrOr(n: XsdNode, name: string, fallback: string): string
  {
    if name in n.attrs then n.attrs[name] else fallback
  }

  // ---------------------------------------------------------------------
  // Results.
  // ---------------------------------------------------------------------

  datatype ChoiceBranch = ChoiceBranch(branchId: string, elements: set<string>, caption: Option<string>)

  /** One `xs:choice` particle; `maxOccurs` is `None` when unbounded. */
  datatype ChoiceGroup = ChoiceGroup(
    groupId: string,
    minOccurs: int,
    maxOccurs: Option<int>,
    exclusive: bool,
    branches: seq<ChoiceBranch>)

  /** Union of the element names over all branches. */
  function AllElements(g: ChoiceGroup): (r: set<string>)
    ensures forall x :: x in r <==> exists i :: 0 <= i < |g.branches| && x in g.branches[i].elements
  {
    UnionFrom(g.branches, 0)
  }

  function UnionFrom(bs: seq<ChoiceBranch>, from: nat): (r: set<string>)
    requires from <= |bs|
    ensures forall x :: x in r <==> exists i :: from <= i < |bs| && x in bs[i].elements
    decreases |bs| - from
  {
    if from == |bs| then {} else bs[from].elements + UnionFrom(bs, from + 1)
  }

  /** Group name to resolved member element names. */
  type GroupTable = map<string, set<string>>

  // ---------------------------------------------------------------------
  // Phase one: named groups.
  // ---------------------------------------------------------------------

  /** The named `xs:group` definitions directly under the root, from `root` index `from` on. */
  function RawGroupsFrom(root: XsdNode, from: nat, acc: Dict<XsdNode>): (raw: Dict<XsdNode>)
    requires from <= |root.children|
    requires DistinctKeys(acc)
    ensures DistinctKeys(raw)
    ensures forall k :: k in Keys(acc) ==> k in Keys(raw)
    ensures forall k :: k in Keys(raw) ==> (k in Keys(acc) ||
      exists i :: from <= i < |root.children| && root.children[i].tag == GroupTag && Attr(root.children[i], "name") == k)
    decreases |root.children| - from
  {
    if from == |root.children| then acc
    else
      var g := root.children[from];
      var name := Attr(g, "name");
      if g.tag == GroupTag && name != "" then RawGroupsFrom(root, from + 1, Put(acc, name, g))
      else RawGroupsFrom(root, from + 1, acc)
  }

  function RawGroups(root: XsdNode): Dict<XsdNode>
  {
    RawGroupsFrom(root, 0, [])
  }

  /**
   The element references an `xs:group` body lists without going through
   another group: element children, and the contents of nested `xs:choice`,
   `xs:sequence` and `xs:all`.
   */
  function DirectRefs(n: XsdNode): set<string>
  {
    DirectRefsFrom(n, 0)
  }

  function DirectRefsFrom(n: XsdNode, from: nat): set<string>
    requires from <= |n.children|
    decreases n, |n.children| - from
  {
    if from == |n.children| then {}
    else DirectRefsOf(n.children[from]) + DirectRefsFrom(n, from + 1)
  }

  /** What one child of a group body contributes to `DirectRefsFrom`. */
  function DirectRefsOf(c: XsdNode): set<string>
    decreases c, |c.children| + 1
  {
    if c.tag == ElementTag && Attr(c, "ref") != "" then {Attr(c, "ref")}
    else if c.tag in {ChoiceTag, SequenceTag, AllTag} then DirectRefsFrom(c, 0)
    else {}
  }

  /**
   The `xs:group` references a group body lists, searching nested
   `xs:choice`, `xs:sequence` and `xs:all` as `DirectRefsFrom` does.
   */
  function GroupRefsFrom(n: XsdNode, from: nat): set<string>
    requires from <= |n.children|
    decreases n, |n.children| - from
  {
    if from == |n.children| then {}
    else GroupRefsOf(n.children[from]) + GroupRefsFrom(n, from + 1)
  }

  /** What one child of a group body contributes to `GroupRefsFrom`. */
  function GroupRefsOf(c: XsdNode): set<string>
    decreases c, |c.children| + 1
  {
    if c.tag == GroupTag && Attr(c, "ref") != "" then {Attr(c, "ref")}
    else if c.tag in {ChoiceTag, SequenceTag, AllTag} then GroupRefsFrom(c, 0)
    else {}
  }

  /**
   A referenced group `g` can be resolved from `table` on: it has an entry
   already, or a definition and is not on the current resolution path.
   */
  predicate Resolvable(g: string, raw: Dict<XsdNode>, visited: set<string>, table: GroupTable)
  {
    g in table || (g !in visited && g in Keys(raw))
  }

  /** Every resolvable group of `refs` has an entry in `table` whose members all lie in `members`. */
  predicate RefsIncluded(refs: set<string>, raw: Dict<XsdNode>, visited: set<string>, before: GroupTable, table: GroupTable, members: set<string>)
  {
    forall g :: g in refs && Resolvable(g, raw, visited, before) ==> g in table && table[g] <= members
  }

  /** The members `table` records for the groups of `refs` that it has an entry for. */
  function MembersOf(refs: set<string>, table: GroupTable): set<string>
  {
    set g, x | g in refs && g in table && x in table[g] :: x
  }

  lemma MembersOfGrows(refs: set<string>, table1: GroupTable, table2: GroupTable)
    requires Extends(table1, table2)
    ensures MembersOf(refs, table1) <= MembersOf(refs, table2)
  {
  }

  /** `table2` adds entries only for names off the resolution path `visited`. */
  predicate AddsOffPath(table1: GroupTable, table2: GroupTable, visited: set<string>)
  {
    forall g :: g in table2 && g !in table1 ==> g !in visited
  }

  /** Every element reference any group body lists directly. */
  function AllGroupRefs(raw: Dict<XsdNode>): (r: set<string>)
    ensures forall i :: 0 <= i < |raw| ==> DirectRefs(raw[i].val) <= r
  {
    if raw == [] then {}
    else
      var rest := AllGroupRefs(raw[1..]);
      assert forall i :: 1 <= i < |raw| ==> raw[i] == raw[1..][i - 1];
      DirectRefs(raw[0].val) + rest
  }

  /** Lookup table entries only ever hold names some group lists directly. */
  predicate TableSound(table: GroupTable, raw: Dict<XsdNode>)
  {
    forall g :: g in table ==> table[g] <= AllGroupRefs(raw)
  }

  /** `table2` keeps every entry of `table1`. */
  predicate Extends(table1: GroupTable, table2: GroupTable)
  {
    forall g :: g in table1 ==> g in table2 && table2[g] == table1[g]
  }

  function Pending(raw: Dict<XsdNode>, visited: set<string>): nat
  {
    |(set k | k in Keys(raw)) - visited|
  }

  lemma PendingShrinks(raw: Dict<XsdNode>, visited: set<string>, name: string)
    requires name in Keys(raw) && name !in visited
    ensures Pending(raw, visited + {name}) < Pending(raw, visited)
  {
    var all := set k | k in Keys(raw);
    assert name in all;
    assert all - visited == (all - (visited + {name})) + {name};
  }

  lemma GetIsAGroup(raw: Dict<XsdNode>, name: string)
    requires name in Keys(raw)
    ensures DirectRefs(Get(raw, name).value) <= AllGroupRefs(raw)
  {
    var i :| 0 <= i < |raw| && raw[i] == Entry(name, Get(raw, name).value);
  }

  /**
   `_resolve_group`: the memoised members of `name`; the empty set for a
   group already on the current resolution path (a cycle) or with no
   definition; otherwise the members collected from its body, which are
   then memoised.
   */
  function ResolveGroup(name: string, raw: Dict<XsdNode>, visited: set<string>, table: GroupTable): (r: (set<string>, GroupTable))
    ensures name in table ==> r == (table[name], table)
    ensures name !in table && (name in visited || name !in Keys(raw)) ==> r == ({}, table)
    ensures name !in table && name !in visited && name in Keys(raw) ==>
      name in r.1 && r.1[name] == r.0 && DirectRefs(Get(raw, name).value) <= r.0 &&
      RefsIncluded(GroupRefsFrom(Get(raw, name).value, 0), raw, visited + {name}, table, r.1, r.0)
    // nothing else: only the body's direct references and the members of the groups it references
    ensures name !in table && name !in visited && name in Keys(raw) ==>
      r.0 <= DirectRefs(Get(raw, name).value) + MembersOf(GroupRefsFrom(Get(raw, name).value, 0), r.1)
    ensures Extends(table, r.1)
    ensures AddsOffPath(table, r.1, visited)
    ensures TableSound(table, raw) ==> TableSound(r.1, raw) && r.0 <= AllGroupRefs(raw)
    decreases Pending(raw, visited), 0
  {
    if name in table then (table[name], table)
    else if name in visited then ({}, table)
    else
      var visited' := visited + {name};
      match Get(raw, name)
      case None => ({}, table)
      case Some(groupEl) =>
        PendingShrinks(raw, visited, name);
        GetIsAGroup(raw, name);
        var (members, table') := CollectElements(groupEl, 0, raw, visited', {}, table);
        Memoise(name, GroupRefsFrom(groupEl, 0), raw, visited, table, table', members);
        (members, table'[name := members])
  }

  /** Recording `name`'s members after collecting its body keeps what the body walk established. */
  lemma Memoise(name: string, refs: set<string>, raw: Dict<XsdNode>, visited: set<string>, table: GroupTable, table1: GroupTable, members: set<string>)
    requires name !in table && name !in visited
    requires Extends(table, table1) && AddsOffPath(table, table1, visited + {name})
    requires RefsIncluded(refs, raw, visited + {name}, table, table1, members)
    ensures Extends(table1, table1[name := members]) && Extends(table, table1[name := members])
    ensures AddsOffPath(table, table1[name := members], visited)
    ensures RefsIncluded(refs, raw, visited + {name}, table, table1[name := members], members)
    ensures MembersOf(refs, table1) <= MembersOf(refs, table1[name := members])
  {
    MembersOfGrows(refs, table1, table1[name := members]);
  }

  /**
   `_collect_elements` over the children of `n` from index `from`: element
   references are added, group references are resolved and their members
   added, and `xs:choice`, `xs:sequence` and `xs:all` are searched.
   */
  function CollectElements(n: XsdNode, from: nat, raw: Dict<XsdNode>, visited: set<string>, out: set<string>, table: GroupTable): (r: (set<string>, GroupTable))
    requires from <= |n.children|
    ensures out + DirectRefsFrom(n, from) <= r.0
    ensures RefsIncluded(GroupRefsFrom(n, from), raw, visited, table, r.1, r.0)
    // nothing else: any other tag is skipped
    ensures r.0 <= out + DirectRefsFrom(n, from) + MembersOf(GroupRefsFrom(n, from), r.1)
    ensures Extends(table, r.1)
    ensures AddsOffPath(table, r.1, visited)
    ensures TableSound(table, raw) && DirectRefsFrom(n, from) <= AllGroupRefs(raw) && out <= AllGroupRefs(raw) ==>
      TableSound(r.1, raw) && r.0 <= AllGroupRefs(raw)
    decreases Pending(raw, visited), 1, n, |n.children| - from
  {
    if from == |n.children| then (out, table)
    else
      var c := n.children[from];
      var (out1, table1) := CollectChild(c, raw, visited, out, table);
      var r := CollectElements(n, from + 1, raw, visited, out1, table1);
      MembersOfGrows(GroupRefsOf(c), table1, r.1);
      IncludedChain(GroupRefsOf(c), GroupRefsFrom(n, from + 1), raw, visited, table, table1, r.1, out1, r.0);
      BoundJoin(out, out1, r.0, DirectRefsOf(c), DirectRefsFrom(n, from + 1), GroupRefsOf(c), GroupRefsFrom(n, from + 1), r.1);
      r
  }

  /** One pass of the loop in `_collect_elements`, for the child `c`. */
  function CollectChild(c: XsdNode, raw: Dict<XsdNode>, visited: set<string>, out: set<string>, table: GroupTable): (r: (set<string>, GroupTable))
    ensures out + DirectRefsOf(c) <= r.0
    ensures RefsIncluded(GroupRefsOf(c), raw, visited, table, r.1, r.0)
    ensures r.0 <= out + DirectRefsOf(c) + MembersOf(GroupRefsOf(c), r.1)
    ensures Extends(table, r.1)
    ensures AddsOffPath(table, r.1, visited)
    ensures TableSound(table, raw) && DirectRefsOf(c) <= AllGroupRefs(raw) && out <= AllGroupRefs(raw) ==>
      TableSound(r.1, raw) && r.0 <= AllGroupRefs(raw)
    decreases Pending(raw, visited), 1, c, |c.children| + 1
  {
    var ref := Attr(c, "ref");
    if c.tag == ElementTag && ref != "" then (out + {ref}, table)
    else if c.tag == GroupTag && ref != "" then
      var (members, table1) := ResolveGroup(ref, raw, visited, table);
      ResolvedMembers(ref, raw, visited, table, members, table1, table1);
      (out + members, table1)
    else if c.tag in {ChoiceTag, SequenceTag, AllTag} then
      CollectElements(c, 0, raw, visited, out, table)
    else (out, table)
  }

  /** Chaining the bound over one child with the bound over the rest. */
  lemma BoundJoin(out: set<string>, part: set<string>, r0: set<string>, d1: set<string>, d2: set<string>, g1: set<string>, g2: set<string>, t: GroupTable)
    requires part <= out + d1 + MembersOf(g1, t)
    requires r0 <= part + d2 + MembersOf(g2, t)
    ensures r0 <= out + (d1 + d2) + MembersOf(g1 + g2, t)
  {
  }

  /** Chaining the included groups of one child with those of the rest. */
  lemma IncludedChain(g1: set<string>, g2: set<string>, raw: Dict<XsdNode>, visited: set<string>, table: GroupTable, table1: GroupTable, table2: GroupTable, out1: set<string>, out2: set<string>)
    requires RefsIncluded(g1, raw, visited, table, table1, out1)
    requires RefsIncluded(g2, raw, visited, table1, table2, out2)
    requires Extends(table, table1) && Extends(table1, table2) && out1 <= out2
    ensures RefsIncluded(g1 + g2, raw, visited, table, table2, out2)
  {
  }

  /** What resolving `ref` returned is still its entry, or nothing, once the table has grown further. */
  lemma ResolvedMembers(ref: string, raw: Dict<XsdNode>, visited: set<string>, table: GroupTable, members: set<string>, table1: GroupTable, table2: GroupTable)
    requires ref in table ==> (members, table1) == (table[ref], table)
    requires ref !in table && (ref in visited || ref !in Keys(raw)) ==> (members, table1) == ({}, table)
    requires ref !in table && ref !in visited && ref in Keys(raw) ==> ref in table1 && table1[ref] == members
    requires Extends(table, table1) && Extends(table1, table2)
    ensures members <= MembersOf({ref}, table2)
  {
  }

  /** One step of `_index_named_groups`: make sure `name` has an entry. */
  function ResolveInto(name: string, raw: Dict<XsdNode>, table: GroupTable): (r: GroupTable)
    ensures name in r
    ensures Extends(table, r)
    ensures TableSound(table, raw) ==> TableSound(r, raw)
  {
    if name in table then table
    else
      var (members, t) := ResolveGroup(name, raw, {}, table);
      t[name := members]
  }

  /** `_index_named_groups`: resolve every named group in definition order. */
  function IndexNamedGroups(raw: Dict<XsdNode>, from: nat, table: GroupTable): (r: GroupTable)
    requires from <= |raw|
    ensures table.Keys <= r.Keys
    ensures forall i :: from <= i < |raw| ==> raw[i].key in r
    ensures TableSound(table, raw) ==> TableSound(r, raw)
    decreases |raw| - from
  {
    if from == |raw| then table
    else
      var table' := ResolveInto(raw[from].key, raw, table);
      var r := IndexNamedGroups(raw, from + 1, table');
      forall i | from <= i < |raw| ensures raw[i].key in r {
        if i == from {
          assert raw[i].key in table'.Keys;
        }
      }
      r
  }

  // ---------------------------------------------------------------------
  // Phase two: choice groups of complex types.
  // ---------------------------------------------------------------------

  /** Element names and labels of a branch that is an `xs:sequence` or nested `xs:choice`. */
  function CollectBranchElements(n: XsdNode, from: nat, table: GroupTable, out: set<string>, labels: seq<string>): (r: (set<string>, seq<string>))
    requires from <= |n.children|
    ensures out <= r.0
    ensures |labels| <= |r.1| && r.1[..|labels|] == labels
    ensures r.0 != out ==> |r.1| > |labels|
    decreases n, |n.children| - from
  {
    if from == |n.children| then (out, labels)
    else
      var c := n.children[from];
      var ref := Attr(c, "ref");
      if c.tag == ElementTag && ref != "" then
        CollectBranchElements(n, from + 1, table, out + {ref}, labels + [ref])
      else if c.tag == GroupTag && ref != "" then
        var members := if ref in table then table[ref] else {};
        CollectBranchElements(n, from + 1, table, out + members, labels + [ref])
      else if c.tag in {ChoiceTag, SequenceTag} then
        var (inner, innerLabels) := CollectBranchElements(c, 0, table, out, labels);
        CollectBranchElements(n, from + 1, table, inner, innerLabels)
      else
        CollectBranchElements(n, from + 1, table, out, labels)
  }

  function BranchId(i: nat): string
  {
    "branch_" + NatToString(i)
  }

  /** What the branches of a sequence or nested choice `c` collect: its element names and its label. */
  function Collected(c: XsdNode, table: GroupTable): (r: (set<string>, Option<string>))
  {
    var (elems, labels) := CollectBranchElements(c, 0, table, {}, []);
    (elems, if labels != [] then Some(Join(labels, " + ")) else None)
  }

  /**
   A child of a choice makes a branch: an element reference, a reference to
   a group with members, or a sequence or nested choice that collects some
   element. An `xs:any`, or anything else, makes none.
   */
  predicate MakesBranch(c: XsdNode, table: GroupTable)
  {
    var ref := Attr(c, "ref");
    || (c.tag == ElementTag && ref != "")
    || (c.tag == GroupTag && ref != "" && ref in table && table[ref] != {})
    || (c.tag in {SequenceTag, ChoiceTag} && Collected(c, table).0 != {})
  }

  /**
   Branch `b` holds what child `c` contributes: `{ref}` captioned `ref` for
   an element reference, the group's resolved members captioned with the
   group's name for a group reference, and the collected names and label
   for a sequence or nested choice.
   */
  predicate BranchOf(c: XsdNode, table: GroupTable, b: ChoiceBranch)
  {
    var ref := Attr(c, "ref");
    if c.tag == ElementTag && ref != "" then b.elements == {ref} && b.caption == Some(ref)
    else if c.tag == GroupTag && ref != "" then ref in table && b.elements == table[ref] && b.caption == Some(ref)
    else (b.elements, b.caption) == Collected(c, table)
  }

  /** The positions from `from` on of the children of `choice` that make a branch, in order. */
  function BranchSources(choice: XsdNode, from: nat, table: GroupTable): (ps: seq<nat>)
    requires from <= |choice.children|
    ensures forall j :: 0 <= j < |ps| ==> from <= ps[j] < |choice.children|
    ensures forall j, k :: 0 <= j < k < |ps| ==> ps[j] < ps[k]
    decreases |choice.children| - from
  {
    if from == |choice.children| then []
    else
      var rest := BranchSources(choice, from + 1, table);
      if MakesBranch(choice.children[from], table) then [from] + rest else rest
  }

  /** Every source makes a branch. */
  lemma {:induction false} BranchSourcesSound(choice: XsdNode, from: nat, table: GroupTable)
    requires from <= |choice.children|
    ensures forall j :: 0 <= j < |BranchSources(choice, from, table)| ==>
      MakesBranch(choice.children[BranchSources(choice, from, table)[j]], table)
    decreases |choice.children| - from
  {
    if from < |choice.children| {
      BranchSourcesSound(choice, from + 1, table);
    }
  }

  /** Every child from `from` on that makes a branch is among the sources. */
  lemma {:induction false} BranchSourcesComplete(choice: XsdNode, from: nat, table: GroupTable, i: nat)
    requires from <= i < |choice.children| && MakesBranch(choice.children[i], table)
    ensures i in BranchSources(choice, from, table)
    decreases i - from
  {
    if i > from {
      BranchSourcesComplete(choice, from + 1, table, i);
    }
  }

  /**
   The branches of a choice, from child `from` on, numbered from `next`:
   one for each child that makes a branch.
   */
  function BuildBranches(choice: XsdNode, from: nat, table: GroupTable, next: nat): (bs: seq<ChoiceBranch>)
    requires from <= |choice.children|
    ensures |bs| == |BranchSources(choice, from, table)|
    ensures forall j :: 0 <= j < |bs| ==> bs[j].branchId == BranchId(next + j)
    ensures forall j :: 0 <= j < |bs| ==> bs[j].elements != {}
    decreases |choice.children| - from
  {
    if from == |choice.children| then []
    else
      match BranchFor(choice.children[from], table, BranchId(next))
      case None =>
        assert |BranchSources(choice, from, table)| == |BranchSources(choice, from + 1, table)|;
        BuildBranches(choice, from + 1, table, next)
      case Some(b) =>
        var rest := BuildBranches(choice, from + 1, table, next + 1);
        assert |BranchSources(choice, from, table)| == 1 + |BranchSources(choice, from + 1, table)|;
        [b] + rest
  }

  /** `bs` holds, in order, one branch per child from `from` on that makes one: what that child contributes. */
  predicate BranchesFrom(choice: XsdNode, from: nat, table: GroupTable, bs: seq<ChoiceBranch>)
    requires from <= |choice.children|
  {
    var ps := BranchSources(choice, from, table);
    |bs| == |ps| && forall j :: 0 <= j < |bs| ==> BranchOf(choice.children[ps[j]], table, bs[j])
  }

  /** The `j`-th branch is what the `j`-th child that makes a branch contributes. */
  lemma BuildBranchesContents(choice: XsdNode, from: nat, table: GroupTable, next: nat)
    requires from <= |choice.children|
    ensures BranchesFrom(choice, from, table, BuildBranches(choice, from, table, next))
  {
    BuildBranchesOf(choice, from, table, next);
  }

  /** One step of `BuildBranches` and `BranchSources` together. */
  lemma BuildBranchesStep(choice: XsdNode, from: nat, table: GroupTable, next: nat)
    requires from < |choice.children|
    ensures BranchFor(choice.children[from], table, BranchId(next)).None? ==>
      BuildBranches(choice, from, table, next) == BuildBranches(choice, from + 1, table, next) &&
      BranchSources(choice, from, table) == BranchSources(choice, from + 1, table)
    ensures BranchFor(choice.children[from], table, BranchId(next)).Some? ==>
      BuildBranches(choice, from, table, next) ==
        [BranchFor(choice.children[from], table, BranchId(next)).value] + BuildBranches(choice, from + 1, table, next + 1) &&
      BranchSources(choice, from, table) == [from] + BranchSources(choice, from + 1, table)
  {
  }

  lemma {:induction false} BuildBranchesOf(choice: XsdNode, from: nat, table: GroupTable, next: nat)
    requires from <= |choice.children|
    ensures forall j :: 0 <= j < |BuildBranches(choice, from, table, next)| ==>
      BranchOf(choice.children[BranchSources(choice, from, table)[j]], table, BuildBranches(choice, from, table, next)[j])
    decreases |choice.children| - from
  {
    if from < |choice.children| {
      var b := BranchFor(choice.children[from], table, BranchId(next));
      BuildBranchesStep(choice, from, table, next);
      if b.None? {
        BuildBranchesOf(choice, from + 1, table, next);
      } else {
        BuildBranchesOf(choice, from + 1, table, next + 1);
        var rest := BuildBranches(choice, from + 1, table, next + 1);
        var later := BranchSources(choice, from + 1, table);
        var bs := BuildBranches(choice, from, table, next);
        var ps := BranchSources(choice, from, table);
        forall j | 0 <= j < |bs| ensures BranchOf(choice.children[ps[j]], table, bs[j]) {
          if j > 0 {
            assert bs[j] == rest[j - 1] && ps[j] == later[j - 1];
            assert BranchOf(choice.children[later[j - 1]], table, rest[j - 1]);
          } else {
            assert bs[0] == b.value && ps[0] == from;
          }
        }
      }
    }
  }

  /** The branch one child of a choice makes, with id `id`, if it makes one. */
  function BranchFor(c: XsdNode, table: GroupTable, id: string): (r: Option<ChoiceBranch>)
    ensures r.Some? <==> MakesBranch(c, table)
    ensures r.Some? ==> r.value.branchId == id && r.value.elements != {} && BranchOf(c, table, r.value)
  {
    var ref := Attr(c, "ref");
    if c.tag == ElementTag && ref != "" then
      Some(ChoiceBranch(id, {ref}, Some(ref)))
    else if c.tag == GroupTag && ref != "" then
      var members := if ref in table then table[ref] else {};
      if members != {} then Some(ChoiceBranch(id, members, Some(ref))) else None
    else if c.tag in {SequenceTag, ChoiceTag} then
      var (elems, caption) := Collected(c, table);
      if elems != {} then Some(ChoiceBranch(id, elems, caption)) else None
    else None
  }

  function GroupId(typeName: string, index: nat): string
  {
    typeName + ":choice_" + NatToString(index)
  }

  /** `gs` are the groups of `typeName` numbered consecutively from `start`, none without branches. */
  predicate Numbered(gs: seq<ChoiceGroup>, typeName: string, start: nat)
  {
    forall j :: 0 <= j < |gs| ==> gs[j].groupId == GroupId(typeName, start + j) && gs[j].branches != []
  }

  /** The groups found from counter `start` on, with the counter after them. */
  predicate Found(r: (seq<ChoiceGroup>, nat), typeName: string, start: nat)
  {
    r.1 == start + |r.0| && Numbered(r.0, typeName, start)
  }

  lemma FoundAppend(a: (seq<ChoiceGroup>, nat), b: (seq<ChoiceGroup>, nat), typeName: string, start: nat)
    requires Found(a, typeName, start) && Found(b, typeName, a.1)
    ensures Found((a.0 + b.0, b.1), typeName, start)
  {
    forall j | |a.0| <= j < |a.0 + b.0| ensures (a.0 + b.0)[j] == b.0[j - |a.0|] {}
  }

  /** Every complex type listed has at least one group, numbered from 0. */
  predicate TypesNumbered(d: Dict<seq<ChoiceGroup>>)
  {
    forall i :: 0 <= i < |d| ==> d[i].val != [] && Numbered(d[i].val, d[i].key, 0)
  }

  /** A malformed occurrence attribute: `int()` raised. */
  datatype ParseError = BadOccurs(value: string)

  /**
   `_build_choice_group`: `None` (and the counter untouched) when the choice
   has no usable branch; otherwise a group numbered by the counter, which
   advances by one.
   */
  function BuildChoiceGroup(choice: XsdNode, typeName: string, table: GroupTable, counter: nat): (r: Result<(Option<ChoiceGroup>, nat), ParseError>)
    ensures r.Ok? && r.value.0.None? ==> r.value.1 == counter
    ensures r.Ok? && r.value.0.Some? ==> r.value.1 == counter + 1
    ensures r.Ok? && r.value.0.Some? ==> var g := r.value.0.value;
      && g.groupId == GroupId(typeName, counter)
      && g.branches != []
      && (g.exclusive <==> g.maxOccurs == Some(1))
      && (AttrOr(choice, "maxOccurs", "1") == "unbounded" <==> g.maxOccurs.None?)
      && (forall j :: 0 <= j < |g.branches| ==> g.branches[j].branchId == BranchId(j) && g.branches[j].elements != {})
    // the occurrence bounds are the parsed attributes, both defaulting to 1, `unbounded` having no maximum
    ensures r.Ok? && r.value.0.Some? ==> var g := r.value.0.value;
      && Some(g.minOccurs) == ParseInt(AttrOr(choice, "minOccurs", "1"))
      && (g.maxOccurs.Some? ==> Some(g.maxOccurs.value) == ParseInt(AttrOr(choice, "maxOccurs", "1")))
    // the branches are the contributions of the children that make one, in order
    ensures r.Ok? ==> (r.value.0.None? <==> BranchSources(choice, 0, table) == [])
    ensures r.Ok? && r.value.0.Some? ==> BranchesFrom(choice, 0, table, r.value.0.value.branches)
    ensures r.Ok? && r.value.0.Some? ==> BuiltFrom(choice, table, r.value.0.value)
    ensures r.Err? <==> (ParseInt(AttrOr(choice, "minOccurs", "1")).None?
      || (AttrOr(choice, "maxOccurs", "1") != "unbounded" && ParseInt(AttrOr(choice, "maxOccurs", "1")).None?))
  {
    var minText := AttrOr(choice, "minOccurs", "1");
    var maxText := AttrOr(choice, "maxOccurs", "1");
    match ParseInt(minText)
    case None => Err(BadOccurs(minText))
    case Some(minOcc) =>
      var maxOcc: Option<Option<int>> :=
        if maxText == "unbounded" then Some(None)
        else match ParseInt(maxText) case None => None case Some(m) => Some(Some(m));
      if maxOcc.None? then Err(BadOccurs(maxText))
      else
        var branches := BuildBranches(choice, 0, table, 0);
        BuildBranchesContents(choice, 0, table, 0);
        if branches == [] then Ok((None, counter))
        else
          var g := ChoiceGroup(GroupId(typeName, counter), minOcc, maxOcc.value, maxOcc.value == Some(1), branches);
          Ok((Some(g), counter + 1))
  }

  /** `int()` raises on one of the particle's occurrence attributes. */
  predicate Malformed(choice: XsdNode)
  {
    ParseInt(AttrOr(choice, "minOccurs", "1")).None?
    || (AttrOr(choice, "maxOccurs", "1") != "unbounded" && ParseInt(AttrOr(choice, "maxOccurs", "1")).None?)
  }

  /** A choice particle yields a group exactly when one of its children makes a branch. */
  predicate HasBranch(choice: XsdNode, table: GroupTable)
  {
    BranchSources(choice, 0, table) != []
  }

  /**
   `g` is what `_build_choice_group` makes of `choice`: the parsed occurrence
   bounds, exclusive exactly when at most one branch may be taken, and the
   branches its children contribute.
   */
  predicate BuiltFrom(choice: XsdNode, table: GroupTable, g: ChoiceGroup)
  {
    && Some(g.minOccurs) == ParseInt(AttrOr(choice, "minOccurs", "1"))
    && (AttrOr(choice, "maxOccurs", "1") == "unbounded" <==> g.maxOccurs.None?)
    && (g.maxOccurs.Some? ==> Some(g.maxOccurs.value) == ParseInt(AttrOr(choice, "maxOccurs", "1")))
    && (g.exclusive <==> g.maxOccurs == Some(1))
    && BranchesFrom(choice, 0, table, g.branches)
  }

  /**
   The `xs:choice` particles `_walk_for_choices` meets among the children of
   `n` from index `from`, in document order: it enters `xs:complexContent`,
   `xs:extension`, `xs:restriction` and `xs:sequence`, and nothing else; in
   particular it does not enter an `xs:choice`.
   */
  function ChoiceNodes(n: XsdNode, from: nat): seq<XsdNode>
    requires from <= |n.children|
    decreases n, |n.children| - from
  {
    if from == |n.children| then []
    else ChoiceNodesOf(n.children[from]) + ChoiceNodes(n, from + 1)
  }

  /** The particles one child contributes to `ChoiceNodes`. */
  function ChoiceNodesOf(c: XsdNode): seq<XsdNode>
    decreases c, |c.children| + 1
  {
    if c.tag == ChoiceTag then [c]
    else if c.tag in {ComplexContentTag, ExtensionTag, RestrictionTag, SequenceTag} then ChoiceNodes(c, 0)
    else []
  }

  /** The particles of `cs` that yield a group, in order. */
  function Yielding(cs: seq<XsdNode>, table: GroupTable): seq<XsdNode>
  {
    if cs == [] then []
    else (if HasBranch(cs[0], table) then [cs[0]] else []) + Yielding(cs[1..], table)
  }

  lemma {:induction false} YieldingAppend(a: seq<XsdNode>, b: seq<XsdNode>, table: GroupTable)
    ensures Yielding(a + b, table) == Yielding(a, table) + Yielding(b, table)
  {
    if a != [] {
      var h := if HasBranch(a[0], table) then [a[0]] else [];
      assert (a + b)[0] == a[0] && (a + b)[1..] == a[1..] + b;
      assert Yielding(a + b, table) == h + Yielding(a[1..] + b, table);
      YieldingAppend(a[1..], b, table);
    } else {
      assert a + b == b;
    }
  }

  /** The `k`-th group of `gs` is built from the `k`-th particle of `cs` that yields one. */
  ghost predicate GroupsOf(cs: seq<XsdNode>, table: GroupTable, gs: seq<ChoiceGroup>)
  {
    BuiltEach(Yielding(cs, table), table, gs)
  }

  /** `gs[k]` is built from `ys[k]`, for every `k`. */
  ghost predicate BuiltEach(ys: seq<XsdNode>, table: GroupTable, gs: seq<ChoiceGroup>)
  {
    |gs| == |ys| && forall k {:trigger BuiltFrom(ys[k], table, gs[k])} :: 0 <= k < |gs| ==> BuiltFrom(ys[k], table, gs[k])
  }

  lemma BuiltEachAppend(ya: seq<XsdNode>, yb: seq<XsdNode>, table: GroupTable, ga: seq<ChoiceGroup>, gb: seq<ChoiceGroup>)
    requires BuiltEach(ya, table, ga) && BuiltEach(yb, table, gb)
    ensures BuiltEach(ya + yb, table, ga + gb)
  {
    forall k | 0 <= k < |ga + gb| ensures BuiltFrom((ya + yb)[k], table, (ga + gb)[k]) {
      if k < |ga| {
        assert (ya + yb)[k] == ya[k] && (ga + gb)[k] == ga[k];
      } else {
        assert (ya + yb)[k] == yb[k - |ga|] && (ga + gb)[k] == gb[k - |ga|];
      }
    }
  }

  lemma GroupsOfAppend(a: seq<XsdNode>, b: seq<XsdNode>, table: GroupTable, ga: seq<ChoiceGroup>, gb: seq<ChoiceGroup>)
    requires GroupsOf(a, table, ga) && GroupsOf(b, table, gb)
    ensures GroupsOf(a + b, table, ga + gb)
  {
    YieldingAppend(a, b, table);
    BuiltEachAppend(Yielding(a, table), Yielding(b, table), table, ga, gb);
  }

  /** Some particle of `cs` is malformed. */
  predicate AnyMalformed(cs: seq<XsdNode>)
  {
    exists c :: c in cs && Malformed(c)
  }

  lemma AnyMalformedAppend(a: seq<XsdNode>, b: seq<XsdNode>)
    ensures AnyMalformed(a + b) <==> AnyMalformed(a) || AnyMalformed(b)
  {
    if AnyMalformed(a + b) {
      var c :| c in a + b && Malformed(c);
    }
    if AnyMalformed(a) {
      var c :| c in a && Malformed(c);
      assert c in a + b;
    }
    if AnyMalformed(b) {
      var c :| c in b && Malformed(c);
      assert c in a + b;
    }
  }

  /**
   What a walk over the particles `cs` returns: their groups, numbered on
   from `counter`, or an error exactly when one of them is malformed.
   */
  ghost predicate WalkedOver(cs: seq<XsdNode>, typeName: string, table: GroupTable, counter: nat, r: Result<(seq<ChoiceGroup>, nat), ParseError>)
  {
    (r.Ok? ==> Found(r.value, typeName, counter) && GroupsOf(cs, table, r.value.0)) &&
    (r.Err? <==> AnyMalformed(cs))
  }

  /** A choice particle met by the walk: the groups it adds (none or one). */
  function ChoiceStep(c: XsdNode, typeName: string, table: GroupTable, counter: nat): (r: Result<(seq<ChoiceGroup>, nat), ParseError>)
    ensures r.Ok? ==> |r.value.0| <= 1
    ensures r.Err? <==> Malformed(c)
    ensures WalkedOver([c], typeName, table, counter, r)
  {
    var b := BuildChoiceGroup(c, typeName, table, counter);
    MalformedOne(c);
    if b.Err? then Err(b.error)
    else if b.value.0.None? then
      NoGroup(c, table);
      Ok(([], b.value.1))
    else
      FoundOne(b.value.0.value, typeName, counter);
      OneGroup(c, table, b.value.0.value);
      Ok(([b.value.0.value], b.value.1))
  }

  lemma MalformedOne(c: XsdNode)
    ensures AnyMalformed([c]) <==> Malformed(c)
  {
    assert c in [c];
  }

  /** A particle that yields no group contributes none. */
  lemma NoGroup(c: XsdNode, table: GroupTable)
    requires !HasBranch(c, table)
    ensures GroupsOf([c], table, [])
  {
    assert [c][1..] == [];
    assert Yielding([c], table) == [];
  }

  /** A particle that yields a group contributes exactly that group. */
  lemma OneGroup(c: XsdNode, table: GroupTable, g: ChoiceGroup)
    requires HasBranch(c, table) && BuiltFrom(c, table, g)
    ensures GroupsOf([c], table, [g])
  {
    YieldingOne(c, table);
    BuiltOne(c, table, g);
  }

  lemma YieldingOne(c: XsdNode, table: GroupTable)
    requires HasBranch(c, table)
    ensures Yielding([c], table) == [c]
  {
    assert [c][1..] == [];
  }

  lemma BuiltOne(c: XsdNode, table: GroupTable, g: ChoiceGroup)
    requires BuiltFrom(c, table, g)
    ensures BuiltEach([c], table, [g])
  {
    forall k | 0 <= k < 1
      ensures BuiltFrom([c][k], table, [g][k])
    {
      assert [c][k] == c && [g][k] == g;
    }
  }

  lemma FoundOne(g: ChoiceGroup, typeName: string, counter: nat)
    requires g.groupId == GroupId(typeName, counter) && g.branches != []
    ensures Found(([g], counter + 1), typeName, counter)
  {
    assert [g][0] == g;
  }

  /**
   `_walk_for_choices` over the children of `n` from index `from`: every
   particle of `ChoiceNodes` that yields a group adds one, in order and
   numbered on from the counter; `int()` raising on any of them aborts.
   */
  function WalkForChoices(n: XsdNode, from: nat, typeName: string, table: GroupTable, counter: nat): (r: Result<(seq<ChoiceGroup>, nat), ParseError>)
    requires from <= |n.children|
    ensures WalkedOver(ChoiceNodes(n, from), typeName, table, counter, r)
    decreases n, |n.children| - from
  {
    if from == |n.children| then Ok(([], counter))
    else
      var c := n.children[from];
      AnyMalformedAppend(ChoiceNodesOf(c), ChoiceNodes(n, from + 1));
      match WalkChild(c, typeName, table, counter)
      case Err(e) => Err(e)
      case Ok(a) =>
        match WalkForChoices(n, from + 1, typeName, table, a.1)
        case Err(e) => Err(e)
        case Ok(b) =>
          FoundAppend(a, b, typeName, counter);
          GroupsOfAppend(ChoiceNodesOf(c), ChoiceNodes(n, from + 1), table, a.0, b.0);
          Ok((a.0 + b.0, b.1))
  }

  /** One pass of the loop in `_walk_for_choices`, for the child `c`. */
  function WalkChild(c: XsdNode, typeName: string, table: GroupTable, counter: nat): (r: Result<(seq<ChoiceGroup>, nat), ParseError>)
    ensures WalkedOver(ChoiceNodesOf(c), typeName, table, counter, r)
    decreases c, |c.children| + 1
  {
    if c.tag == ChoiceTag then
      assert ChoiceNodesOf(c) == [c];
      ChoiceStep(c, typeName, table, counter)
    else if c.tag in {ComplexContentTag, ExtensionTag, RestrictionTag, SequenceTag} then
      assert ChoiceNodesOf(c) == ChoiceNodes(c, 0);
      WalkForChoices(c, 0, typeName, table, counter)
    else
      assert ChoiceNodesOf(c) == [];
      NoParticles(typeName, table, counter);
      Ok(([], counter))
  }

  lemma NoParticles(typeName: string, table: GroupTable, counter: nat)
    ensures WalkedOver([], typeName, table, counter, Ok(([], counter)))
  {
    assert Yielding([], table) == [];
  }

  /** A named `xs:complexType`, the only kind `_index_complex_types` walks. */
  predicate Declared(ct: XsdNode)
  {
    ct.tag == ComplexTypeTag && Attr(ct, "name") != ""
  }

  /** The groups of one complex type, its counter starting at 0. */
  function TypeChoices(ct: XsdNode, table: GroupTable): (r: Result<seq<ChoiceGroup>, ParseError>)
    ensures r.Ok? ==> Numbered(r.value, Attr(ct, "name"), 0)
    ensures r.Ok? ==> GroupsOf(ChoiceNodes(ct, 0), table, r.value)
    ensures r.Err? <==> AnyMalformed(ChoiceNodes(ct, 0))
  {
    match WalkForChoices(ct, 0, Attr(ct, "name"), table, 0)
    case Err(e) => Err(e)
    case Ok(w) => Ok(w.0)
  }

  /** The result of walking one complex type. */
  type TypeOutcome = Result<seq<ChoiceGroup>, ParseError>

  /** `TypeChoices` against a fixed group table. */
  function Walker(table: GroupTable): XsdNode -> TypeOutcome
  {
    ct => TypeChoices(ct, table)
  }

  /** A complex type that `_index_complex_types` records: named, with groups. */
  predicate Contributes(ct: XsdNode, walk: XsdNode -> TypeOutcome)
  {
    Declared(ct) && walk(ct).Ok? && walk(ct).value != []
  }

  /** `cs[i]` records groups, and no later type records groups under its name. */
  ghost predicate LastOfName(cs: seq<XsdNode>, i: nat, walk: XsdNode -> TypeOutcome)
    requires i < |cs|
  {
    Contributes(cs[i], walk) &&
    forall j :: i < j < |cs| && Contributes(cs[j], walk) ==> Attr(cs[j], "name") != Attr(cs[i], "name")
  }

  /** No type of `cs` from index `from` on records groups under the name `k`. */
  ghost predicate NoneNamed(cs: seq<XsdNode>, from: nat, k: string, walk: XsdNode -> TypeOutcome)
  {
    forall i :: from <= i < |cs| && Contributes(cs[i], walk) ==> Attr(cs[i], "name") != k
  }

  /**
   What indexing the types `cs` from index `from` onto `acc` returns: an
   error exactly when the walk of a named type raises; otherwise every
   named type with groups is recorded under its name, the last one of a
   name winning, and a name no such type has keeps its entry in `acc`.
   */
  ghost predicate Indexed(cs: seq<XsdNode>, from: nat, walk: XsdNode -> TypeOutcome, acc: Dict<seq<ChoiceGroup>>, r: Result<Dict<seq<ChoiceGroup>>, ParseError>)
  {
    && (r.Err? <==> exists i :: from <= i < |cs| && Declared(cs[i]) && walk(cs[i]).Err?)
    && (r.Ok? ==> forall k :: k in Keys(acc) ==> k in Keys(r.value))
    && (r.Ok? ==> forall i :: from <= i < |cs| && Contributes(cs[i], walk) ==> Attr(cs[i], "name") in Keys(r.value))
    && (r.Ok? ==> forall i :: from <= i < |cs| && LastOfName(cs, i, walk) ==>
          Get(r.value, Attr(cs[i], "name")) == Some(walk(cs[i]).value))
    && (r.Ok? ==> forall k :: NoneNamed(cs, from, k, walk) ==> Get(r.value, k) == Get(acc, k))
  }

  /** `_index_complex_types` over the root's children from index `from`. */
  function IndexComplexTypes(root: XsdNode, from: nat, table: GroupTable, acc: Dict<seq<ChoiceGroup>>): (r: Result<Dict<seq<ChoiceGroup>>, ParseError>)
    requires from <= |root.children|
    requires DistinctKeys(acc)
    requires TypesNumbered(acc)
    ensures r.Ok? ==> DistinctKeys(r.value) && TypesNumbered(r.value)
    ensures Indexed(root.children, from, Walker(table), acc, r)
    decreases |root.children| - from
  {
    if from == |root.children| then Ok(acc)
    else
      var ct := root.children[from];
      var typeName := Attr(ct, "name");
      var walk := Walker(table);
      assert walk(ct) == TypeChoices(ct, table);
      if !Declared(ct) then
        var r := IndexComplexTypes(root, from + 1, table, acc);
        IndexedSkip(root.children, from, walk, acc, r);
        r
      else
        match TypeChoices(ct, table)
        case Err(e) =>
          IndexedErr(root.children, from, walk, acc, e);
          Err(e)
        case Ok(choices) =>
          if choices == [] then
            var r := IndexComplexTypes(root, from + 1, table, acc);
            IndexedSkip(root.children, from, walk, acc, r);
            r
          else
            var acc' := Put(acc, typeName, choices);
            PutPreservesGroups(acc, typeName, choices);
            var r := IndexComplexTypes(root, from + 1, table, acc');
            IndexedPut(root.children, from, walk, acc, acc', r);
            r
  }

  lemma IndexedErr(cs: seq<XsdNode>, from: nat, walk: XsdNode -> TypeOutcome, acc: Dict<seq<ChoiceGroup>>, e: ParseError)
    requires from < |cs| && Declared(cs[from]) && walk(cs[from]).Err?
    ensures Indexed(cs, from, walk, acc, Err(e))
  {
  }

  /** A type that records nothing leaves the result as the rest makes it. */
  lemma IndexedSkip(cs: seq<XsdNode>, from: nat, walk: XsdNode -> TypeOutcome, acc: Dict<seq<ChoiceGroup>>, r: Result<Dict<seq<ChoiceGroup>>, ParseError>)
    requires from < |cs| && !Contributes(cs[from], walk)
    requires Declared(cs[from]) ==> walk(cs[from]).Ok?
    requires Indexed(cs, from + 1, walk, acc, r)
    ensures Indexed(cs, from, walk, acc, r)
  {
    ErrShift(cs, from, walk);
    if r.Ok? {
      SkipLast(cs, from, walk, r.value);
      SkipFrame(cs, from, walk, acc, r.value);
    }
  }

  lemma SkipLast(cs: seq<XsdNode>, from: nat, walk: XsdNode -> TypeOutcome, rv: Dict<seq<ChoiceGroup>>)
    requires from < |cs| && !Contributes(cs[from], walk)
    requires forall i :: from + 1 <= i < |cs| && LastOfName(cs, i, walk) ==>
      Get(rv, Attr(cs[i], "name")) == Some(walk(cs[i]).value)
    ensures forall i :: from <= i < |cs| && LastOfName(cs, i, walk) ==>
      Get(rv, Attr(cs[i], "name")) == Some(walk(cs[i]).value)
  {
  }

  lemma SkipFrame(cs: seq<XsdNode>, from: nat, walk: XsdNode -> TypeOutcome, acc: Dict<seq<ChoiceGroup>>, rv: Dict<seq<ChoiceGroup>>)
    requires from < |cs| && !Contributes(cs[from], walk)
    requires forall k :: NoneNamed(cs, from + 1, k, walk) ==> Get(rv, k) == Get(acc, k)
    ensures forall k :: NoneNamed(cs, from, k, walk) ==> Get(rv, k) == Get(acc, k)
  {
    forall k | NoneNamed(cs, from, k, walk) ensures Get(rv, k) == Get(acc, k) {
      assert NoneNamed(cs, from + 1, k, walk);
    }
  }

  /** A type with groups is recorded, and the rest may record its name again. */
  lemma IndexedPut(cs: seq<XsdNode>, from: nat, walk: XsdNode -> TypeOutcome, acc: Dict<seq<ChoiceGroup>>, acc': Dict<seq<ChoiceGroup>>, r: Result<Dict<seq<ChoiceGroup>>, ParseError>)
    requires from < |cs| && Contributes(cs[from], walk)
    requires Attr(cs[from], "name") in Keys(acc') && forall k :: k in Keys(acc) ==> k in Keys(acc')
    requires Get(acc', Attr(cs[from], "name")) == Some(walk(cs[from]).value)
    requires forall k :: k != Attr(cs[from], "name") ==> Get(acc', k) == Get(acc, k)
    requires Indexed(cs, from + 1, walk, acc', r)
    ensures Indexed(cs, from, walk, acc, r)
  {
    ErrShift(cs, from, walk);
    if r.Ok? {
      PutLast(cs, from, walk, acc', r.value);
      PutFrame(cs, from, walk, acc, acc', r.value);
    }
  }

  /** A named type whose walk succeeds does not change whether some later walk raises. */
  lemma ErrShift(cs: seq<XsdNode>, from: nat, walk: XsdNode -> TypeOutcome)
    requires from < |cs| && (Declared(cs[from]) ==> walk(cs[from]).Ok?)
    ensures (exists i :: from <= i < |cs| && Declared(cs[i]) && walk(cs[i]).Err?) <==>
      (exists i :: from + 1 <= i < |cs| && Declared(cs[i]) && walk(cs[i]).Err?)
  {
  }

  lemma PutLast(cs: seq<XsdNode>, from: nat, walk: XsdNode -> TypeOutcome, acc': Dict<seq<ChoiceGroup>>, rv: Dict<seq<ChoiceGroup>>)
    requires from < |cs| && Contributes(cs[from], walk)
    requires Get(acc', Attr(cs[from], "name")) == Some(walk(cs[from]).value)
    requires forall i :: from + 1 <= i < |cs| && LastOfName(cs, i, walk) ==>
      Get(rv, Attr(cs[i], "name")) == Some(walk(cs[i]).value)
    requires forall k :: NoneNamed(cs, from + 1, k, walk) ==> Get(rv, k) == Get(acc', k)
    ensures forall i :: from <= i < |cs| && LastOfName(cs, i, walk) ==>
      Get(rv, Attr(cs[i], "name")) == Some(walk(cs[i]).value)
  {
    if LastOfName(cs, from, walk) {
      assert NoneNamed(cs, from + 1, Attr(cs[from], "name"), walk);
    }
  }

  lemma PutFrame(cs: seq<XsdNode>, from: nat, walk: XsdNode -> TypeOutcome, acc: Dict<seq<ChoiceGroup>>, acc': Dict<seq<ChoiceGroup>>, rv: Dict<seq<ChoiceGroup>>)
    requires from < |cs| && Contributes(cs[from], walk)
    requires forall k :: k != Attr(cs[from], "name") ==> Get(acc', k) == Get(acc, k)
    requires forall k :: NoneNamed(cs, from + 1, k, walk) ==> Get(rv, k) == Get(acc', k)
    ensures forall k :: NoneNamed(cs, from, k, walk) ==> Get(rv, k) == Get(acc, k)
  {
    forall k | NoneNamed(cs, from, k, walk) ensures Get(rv, k) == Get(acc, k) {
      assert NoneNamed(cs, from + 1, k, walk);
    }
  }

  lemma PutPreservesGroups(acc: Dict<seq<ChoiceGroup>>, typeName: string, choices: seq<ChoiceGroup>)
    requires DistinctKeys(acc)
    requires TypesNumbered(acc)
    requires choices != [] && Numbered(choices, typeName, 0)
    ensures TypesNumbered(Put(acc, typeName, choices))
  {
    var r := Put(acc, typeName, choices);
    forall i | 0 <= i < |r| ensures r[i].val != [] && Numbered(r[i].val, r[i].key, 0) {
      GetAt(r, i);
      if r[i].key != typeName {
        assert Entry(r[i].key, r[i].val) in acc;
      }
    }
  }

  /** What the parser exposes: resolved groups and choice groups per complex type. */
  datatype ChoiceTables = ChoiceTables(namedGroups: GroupTable, typeChoiceGroups: Dict<seq<ChoiceGroup>>)

  /**
   `XsdChoiceParser.parse`: phase one, then phase two. Every named group is
   resolved; the choice groups recorded for a type name are those of the
   last named complex type of that name that has any; and no other name is
   recorded.
   */
  function Parse(root: XsdNode): (r: Result<ChoiceTables, ParseError>)
    ensures r.Ok? ==> forall k :: k in Keys(RawGroups(root)) ==> k in r.value.namedGroups
    ensures r.Ok? ==> TableSound(r.value.namedGroups, RawGroups(root))
    ensures r.Ok? ==> DistinctKeys(r.value.typeChoiceGroups) && TypesNumbered(r.value.typeChoiceGroups)
    ensures r.Ok? ==> forall i :: 0 <= i < |root.children| && LastOfName(root.children, i, Walker(r.value.namedGroups)) ==>
      Get(r.value.typeChoiceGroups, Attr(root.children[i], "name")) == Some(TypeChoices(root.children[i], r.value.namedGroups).value)
    ensures r.Ok? ==> forall k :: NoneNamed(root.children, 0, k, Walker(r.value.namedGroups)) ==> Get(r.value.typeChoiceGroups, k) == None
    ensures r.Err? <==>
      exists i :: 0 <= i < |root.children| && Declared(root.children[i]) &&
        TypeChoices(root.children[i], IndexNamedGroups(RawGroups(root), 0, map[])).Err?
  {
    var raw := RawGroups(root);
    var table := IndexNamedGroups(raw, 0, map[]);
    var types :- IndexComplexTypes(root, 0, table, []);
    Ok(ChoiceTables(table, types))
  }
}
