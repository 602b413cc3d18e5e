# akn-profiler constraint engine in Dafny

akn-profiler is a language server for YAML *application profiles*. A
profile narrows the Akoma Ntoso 3.0 XML vocabulary. It says which document
types and which elements a publisher uses, and which children, attributes,
attribute values and cardinalities each element may have. This project
models the engine behind that server and proves properties of the model.

- **Schema view** (`Schema`, `ChoiceParser`). The element, attribute and
  choice-group information the server reads from the XSD, and the parser
  that turns an XSD `xs:choice` into exclusive or non-exclusive groups.
- **Profile loading** (`Yaml`, `Profile`, `YamlParser`). YAML documents as
  node trees with source positions, and decoding them into a `Profile`
  record. A structural error becomes a parse error at the offending path,
  and a path is resolved to a line and column.
- **Validation** (`Errors`, `RuleKit`, `Rules*`, `Engine`). The six rule
  modules are vocabulary, structure, choice, datatype, identity and
  strictness. The engine runs them in that order, drops a module that
  raises, and deduplicates the findings.
- **Cascade operations** (`Cascade*`, `BlankLines`).
  - Expanding an element adds its whole required-child chain.
  - The `akomaNtoso` root is kept first with the document types as its
    children.
  - Elements are ordered canonically, parents before children.
  - Children and attributes are reordered by schema rank.
  - Collapsing an element removes it and the descendants it orphans.
  - Blank lines are laid out in the dumped text.
- **Generators** (`Generator`, `SnippetGenerator`). The full profile
  generated for one document type, and the editor snippet for a new
  profile.
- **Editor support** (`YamlContext`, `ServerText`, `ServerEdits`,
  `SemanticTokens`, `StableSort`).
  - The cursor scope resolver behind completion.
  - Diagnostics, word and key lookup, full-document edits.
  - The child-removal code action with its orphan cascade.
  - Semantic token encoding.

Python dictionaries are modelled as ordered association lists (`Dicts`).
Assignment replaces a key in place or appends it, as Python's insertion
order does. A Python dict never holds a key twice (`DistinctKeys`); the
few properties that depend on it, such as the completeness of the orphan
walks, are stated for dicts with distinct keys. Several things appear as parameters instead:

- the XSD schema is an `AknSchema` value instead of a process-wide
  singleton;
- YAML text is a parsed `Yaml.Value` or node tree;
- regular-expression matching of datatype patterns is a `RegexOracle`;
- validation messages are a template with arguments rather than
  formatted text.

Unguarded Python operations that raise `TypeError` on ill-typed YAML are
modelled as explicit error outcomes. Examples are `in` on a number and
item assignment on a string.

## Model

| member | source | states |
|---|---|---|
| Schema.AttrCardinality | server/akn_profiler/xsd/schema_loader.py:121-124 | an attribute's cardinality is `1..1` when it is required and `0..1` otherwise |
| Schema.GetElementInfo | server/akn_profiler/xsd/schema_loader.py:239-245 | the lookup succeeds exactly for known elements and returns the info stored under that name |
| Schema.GetChildren | server/akn_profiler/xsd/schema_loader.py:247-252 | an unknown element has no children; a known one lists its children's names in declaration order |
| Schema.GetAttributes | server/akn_profiler/xsd/schema_loader.py:254-259 | an unknown element has no attributes; a known one returns its attribute list unchanged |
| Schema.GetRequiredAttributes | server/akn_profiler/xsd/schema_loader.py:261-263 | the result is an order-preserving subsequence of the attributes holding exactly the required ones |
| Schema.GetRequiredChildren | server/akn_profiler/xsd/schema_loader.py:265-270 | empty for an unknown element; otherwise an order-preserving subsequence of the children holding exactly the required ones |
| Schema.ElementNames | server/akn_profiler/xsd/schema_loader.py:272-274 | the names come out strictly sorted and are exactly the known elements |
| Schema.GetEnumValues | server/akn_profiler/xsd/schema_loader.py:276-278 | values are found exactly for the enumeration names the schema indexed |
| Schema.GetChoiceGroups | server/akn_profiler/xsd/schema_loader.py:284-289 | no groups for an unknown element; otherwise the element's own choice groups |
| Schema.PrimaryIndex | server/akn_profiler/xsd/schema_loader.py:303-309 | the primary group is the first one with a minimum of at least one or marked exclusive, and the first group when none is |
| Schema.GetChoiceCardinality | server/akn_profiler/xsd/schema_loader.py:291-311 | `None` exactly when the element has no choice groups; otherwise the `min..max` text of the primary group: the first with a minimum of at least one or marked exclusive, and the first group when none is |
| Schema.ChildOf | server/akn_profiler/xsd/schema_loader.py:481-543 | only element fields become children; a singular one is `0..1` or `1..1` by its default; a list one is unbounded and its minimum is the larger of the XSD minimum and the floor `required` sets (one when required, zero otherwise); `required` means a minimum of at least one |
| Schema.AttrOf | server/akn_profiler/xsd/schema_loader.py:491-506 | only attribute fields become attributes, carrying the XML name, the enumeration values, the pattern and the requiredness of the field's default |
| Schema.ClassifyFields | server/akn_profiler/xsd/schema_loader.py:466-549 | the attributes and children are exactly those the fields describe, one per attribute or child field and in field order; text and unknown fields contribute nothing |
| Schema.ClassifyOne | server/akn_profiler/xsd/schema_loader.py:474-547 | a single field yields its own attribute, its own child, or nothing |
| Schema.ClassifyAppend | server/akn_profiler/xsd/schema_loader.py:474-547 | classifying two runs of fields gives the first run's attributes followed by the second's, and the first run's children followed by the second's |
| Schema.CaseInsensitiveLookup | server/akn_profiler/xsd/schema_loader.py:380-384 | finds the first type whose name matches ignoring case, and fails exactly when none does |
| Schema.GroupsForType | server/akn_profiler/xsd/schema_loader.py:376-384 | an exact type name wins over the case-insensitive fallback |
| Schema.MatchGroups | server/akn_profiler/xsd/schema_loader.py:366-384 | the matched groups are exactly those contributed by the class or one of its parent classes |
| Schema.GroupIdsFor | server/akn_profiler/xsd/schema_loader.py:399-403 | a child is tagged with exactly the ids of the groups containing it |
| Schema.AnnotateChildren | server/akn_profiler/xsd/schema_loader.py:397-407 | every child keeps its other fields and gets the group ids that contain it, or keeps its old ids when no group does |
| Schema.AttachOne | server/akn_profiler/xsd/schema_loader.py:386-414 | an element with no matching group is untouched; otherwise its groups are the matches deduplicated by id and its children are annotated with them |
| Schema.AttachChoiceGroups | server/akn_profiler/xsd/schema_loader.py:366-414 | the element names, their order and the enumerations stay the same, and each element is updated by AttachOne |
| ChoiceParser.AllElements | server/akn_profiler/xsd/choice_parser.py:91-97 | a name belongs to the group exactly when some branch lists it |
| ChoiceParser.RawGroupsFrom | server/akn_profiler/xsd/choice_parser.py:152-157 | the raw index has one entry per name, keeps what it had, and adds only named `xs:group` definitions |
| ChoiceParser.ResolveGroup | server/akn_profiler/xsd/choice_parser.py:164-213 | a cached group is returned as cached; a visited or undefined name resolves to nothing; otherwise the result is cached under the name and holds every element the group lists directly and every member of each nested group reference that is cached or still resolvable, and nothing beyond those direct references and the recorded members of the groups it references; the table only grows, gains entries only for names off the resolution path, and never holds a name no group lists |
| ChoiceParser.CollectElements | server/akn_profiler/xsd/choice_parser.py:189-213 | the collected set keeps what it had and gains every direct element reference of the subtree and every member of each group reference that is cached or still resolvable; it gains nothing else, so every other tag is skipped; the table only grows and stays sound |
| ChoiceParser.CollectChild | server/akn_profiler/xsd/choice_parser.py:197-213 | one child adds its own element reference, the members its group reference resolves to, or what a nested `xs:choice`, `xs:sequence` or `xs:all` collects, and nothing for any other tag |
| ChoiceParser.ResolveInto | server/akn_profiler/xsd/choice_parser.py:160-162 | after resolving, the name is in the table, earlier entries are kept and soundness is preserved |
| ChoiceParser.IndexNamedGroups | server/akn_profiler/xsd/choice_parser.py:150-162 | every raw group ends up resolved in the table and the table stays sound |
| ChoiceParser.CollectBranchElements | server/akn_profiler/xsd/choice_parser.py:371-396 | elements and label parts are only ever added, and every new element comes with a new label part |
| ChoiceParser.BuildBranches | server/akn_profiler/xsd/choice_parser.py:286-355 | one branch per child that makes one, numbered `branch_0`, `branch_1`, … with no gaps, and no branch is empty |
| ChoiceParser.BranchFor | server/akn_profiler/xsd/choice_parser.py:289-355 | a child makes a branch exactly when it is an element reference, a reference to a group with members, or a sequence or nested choice that collects an element; the branch carries the given id and what the child contributes |
| ChoiceParser.BranchSources | server/akn_profiler/xsd/choice_parser.py:289-355 | the positions of the children that make a branch lie in range and come in increasing order |
| ChoiceParser.BranchSourcesSound | server/akn_profiler/xsd/choice_parser.py:289-355 | every listed position holds a child that makes a branch |
| ChoiceParser.BranchSourcesComplete | server/akn_profiler/xsd/choice_parser.py:289-355 | every child that makes a branch is listed; an `xs:any` or other child is never listed because it makes none |
| ChoiceParser.BuildBranchesContents | server/akn_profiler/xsd/choice_parser.py:289-355 | the j-th branch is what the j-th branch-making child contributes: `{ref}` captioned `ref` for an element reference, the group's resolved members captioned with its name for a group reference, the collected names joined with ` + ` for a sequence or nested choice |
| ChoiceParser.BuildChoiceGroup | server/akn_profiler/xsd/choice_parser.py:272-369 | a group is built exactly when some child makes a branch and then takes the next counter value; its minimum is the parsed `minOccurs` (default `1`), its maximum the parsed `maxOccurs` (default `1`) or none for `unbounded`; it is exclusive exactly when its maximum is one; its branches are those of BuildBranchesContents; a malformed `minOccurs` or `maxOccurs` is the `int()` error |
| ChoiceParser.WalkForChoices | server/akn_profiler/xsd/choice_parser.py:240-270 | the walk raises exactly when some `xs:choice` particle reached through `complexContent`, `extension`, `restriction` and `sequence` (and through nothing else) has a malformed `minOccurs` or `maxOccurs`; otherwise the k-th group found is the one built from the k-th such particle that has a branch-making child, the groups are numbered consecutively from the starting counter and the counter advances by their number |
| ChoiceParser.WalkChild | server/akn_profiler/xsd/choice_parser.py:256-270 | a choice child contributes its own group (or none), one of the four container tags contributes what walking its children finds, and any other child contributes nothing and leaves the counter alone |
| ChoiceParser.ChoiceStep | server/akn_profiler/xsd/choice_parser.py:259-262 | one choice particle adds at most one group, the group built from it, and raises exactly when its bounds are malformed |
| ChoiceParser.GroupsOfAppend | server/akn_profiler/xsd/choice_parser.py:256-270 | the groups of two consecutive stretches of particles are the groups of the first followed by those of the second |
| ChoiceParser.YieldingAppend | server/akn_profiler/xsd/choice_parser.py:259-262 | the group-yielding particles of two stretches are those of the first followed by those of the second |
| ChoiceParser.TypeChoices | server/akn_profiler/xsd/choice_parser.py:233-235 | a type's groups are numbered from `choice_0`, are built one per group-yielding particle of its content model, and the walk raises exactly when one of those particles is malformed |
| ChoiceParser.FoundAppend | server/akn_profiler/xsd/choice_parser.py:256-270 | the groups of two consecutive walks together stay consecutively numbered |
| ChoiceParser.IndexComplexTypes | server/akn_profiler/xsd/choice_parser.py:219-238 | indexing raises exactly when the walk of some named complex type raises; otherwise every name already indexed is kept, every named type with groups is listed, a name maps to the groups of the last type of that name that has any, a name no later type records keeps its earlier entry, each name is listed once and every list is numbered `choice_0`, `choice_1`, … |
| ChoiceParser.IndexedPut | server/akn_profiler/xsd/choice_parser.py:237-238 | recording a type with groups and then indexing the rest gives what indexing from that type gives: the entry survives unless a later type of the same name records its own |
| ChoiceParser.IndexedSkip | server/akn_profiler/xsd/choice_parser.py:228-238 | a type without a name, or whose walk finds no groups, leaves the index as the rest of the types make it |
| ChoiceParser.PutPreservesGroups | server/akn_profiler/xsd/choice_parser.py:237-238 | recording a type's non-empty, consecutively numbered groups keeps every type's numbering intact |
| ChoiceParser.Parse | server/akn_profiler/xsd/choice_parser.py:128-144 | every named group is resolved and the group table is sound; parsing raises exactly when some named complex type has a malformed choice particle; otherwise each type name maps to the groups its last type with groups yields, numbered from zero, and a name no type with groups carries is absent |
| Yaml.Field | server/akn_profiler/validation/yaml_parser.py:125 | a field is found exactly when the value is a mapping holding that key |
| Yaml.Construct | server/akn_profiler/validation/yaml_parser.py:93-94 | a node tree constructs exactly when every mapping key is a scalar; scalars keep their resolved value, sequences their length, mappings stay mappings, and the result is well formed |
| Yaml.ConstructItems | server/akn_profiler/validation/yaml_parser.py:93-94 | a sequence's items construct exactly when each does, one value per item |
| Yaml.ConstructPairs | server/akn_profiler/validation/yaml_parser.py:93-94 | a mapping's pairs construct exactly when every key is a scalar and every value constructs, into well-formed entries |
| Profile.CoerceBareKeys | server/akn_profiler/models/profile.py:78-84 | a non-mapping passes through; in a mapping the keys and their order are kept and exactly the `None` values become empty mappings |
| Profile.CoerceBareKeysIdempotent | server/akn_profiler/models/profile.py:120-126 | coercing bare keys twice is the same as coercing once |
| Profile.DecodeStr | server/akn_profiler/models/profile.py:110-112 | a string field accepts exactly strings and keeps their text |
| Profile.DecodeOptStr | server/akn_profiler/models/profile.py:74 | a child cardinality accepts exactly strings and `None`, `None` meaning the schema default |
| Profile.DecodeBool | server/akn_profiler/models/profile.py:49 | `required` accepts booleans, the integers 0 and 1 and the boolean words in any case, and nothing else |
| Profile.DecodeStrItems | server/akn_profiler/models/profile.py:52 | a list of strings decodes without error exactly when every item is a string, keeping them in order |
| Profile.DecodeStrList | server/akn_profiler/models/profile.py:52 | `values`, `structure` and `documentTypes` accept exactly lists of strings and keep the items in order |
| Profile.FieldOr | server/akn_profiler/models/profile.py:49-52 | an absent field takes its default without error; a present one is decoded at its own location |
| Profile.DecodeEntries | server/akn_profiler/models/profile.py:73-74 | a dict decodes key by key, keeping the keys in order, and is error-free exactly when every value is |
| Profile.DecodeDict | server/akn_profiler/models/profile.py:73-74 | a non-mapping is an error; a mapping keeps its keys and fails exactly when one of its values does |
| Profile.DecodeAttribute | server/akn_profiler/models/profile.py:34-52 | `{}` is the default restriction with no errors, and anything but a mapping is an error |
| Profile.ExtractChoice | server/akn_profiler/validation/rules_choice.py:67-69 | a `choice` key is taken out of a `children` mapping exactly when it is there, to become the exclusive children the choice rules read; `children` is otherwise left as it was |
| Profile.DecodeElement | server/akn_profiler/models/profile.py:55-101 | `{}` decodes to the empty restriction; a non-mapping is an error; decoded `children` keep every key but `choice` and hold `None` exactly for bare keys |
| Profile.ChildrenKeys | server/akn_profiler/models/profile.py:86-101 | bare child keys stay `None` rather than becoming `{}`, and only `choice` is dropped from `children` |
| Profile.DecodeDictGet | server/akn_profiler/models/profile.py:117 | looking a key up in a decoded mapping gives the decoded value of that key, and nothing for a missing key |
| Profile.DecodeProfile | server/akn_profiler/models/profile.py:104-126 | `profile: {}` decodes to the all-default document, and a failure always carries at least one error |
| YamlParser.SetLine | server/akn_profiler/validation/yaml_parser.py:36-37 | after recording, the path maps to the line and every other path keeps its line |
| YamlParser.GetLine | server/akn_profiler/validation/yaml_parser.py:39-41 | a line is returned exactly for recorded paths |
| YamlParser.GetLineOr | server/akn_profiler/validation/yaml_parser.py:43-44 | a recorded path gives its line, any other the fallback |
| YamlParser.WalkNode | server/akn_profiler/validation/yaml_parser.py:47-61 | the walk records exactly the dotted key paths and `[i]` item paths of the node, and every recorded line stays one-based |
| YamlParser.WalkItems | server/akn_profiler/validation/yaml_parser.py:57-61 | the items of a sequence add exactly their `prefix[i]` paths and what lies below them |
| YamlParser.WalkPairs | server/akn_profiler/validation/yaml_parser.py:49-56 | the scalar-keyed pairs of a mapping add exactly their `prefix.key` paths and what lies below them |
| YamlParser.BuildLineIndex | server/akn_profiler/validation/yaml_parser.py:64-73 | lines are one-based, and a composed document indexes exactly the paths of its root; a document that fails to compose gives an empty index |
| YamlParser.SafeLoad | server/akn_profiler/validation/yaml_parser.py:93-108 | a successful load is a well-formed value |
| YamlParser.PydanticErrors | server/akn_profiler/validation/yaml_parser.py:153-166 | one finding per model-validation error, in order |
| YamlParser.ParseProfile | server/akn_profiler/validation/yaml_parser.py:76-168 | the line index is always returned; each failed rung gives one error with its own rule id, path and line (syntax at the marked line, not-a-mapping and missing key at line 1, profile-not-mapping at the `profile` line); a profile is returned exactly when there are no errors, and it is the decoded `profile` mapping |
| YamlParser.PydanticFailure | server/akn_profiler/validation/yaml_parser.py:150-166 | a decoding failure yields no profile and one `parse.pydantic` finding per error, each at the line its path was recorded on |
| YamlParser.EmptyProfileParses | server/akn_profiler/validation/yaml_parser.py:150-168 | `profile: {}` parses to the all-default document with no errors |
| Engine.RunModule | server/akn_profiler/validation/engine.py:64-69 | every rule module but strictness always returns its findings; strictness may raise, which is the empty outcome |
| Engine.Outputs | server/akn_profiler/validation/engine.py:36-43 | the six modules run in the fixed order vocabulary, structure, choice, datatype, identity, strictness |
| Engine.Collect | server/akn_profiler/validation/engine.py:62-69 | the combined list holds exactly the findings of the modules that did not raise, and is empty when none found anything |
| Engine.Deduplicate | server/akn_profiler/validation/engine.py:74-83 | the result is an order-preserving subsequence with one finding per rule id, path and message, covering every such key, and each kept finding is the first with its key |
| Engine.DeduplicateIdempotent | server/akn_profiler/validation/engine.py:74-83 | deduplicating twice is the same as deduplicating once |
| Engine.Findings | server/akn_profiler/validation/engine.py:62-71 | the reported findings are distinct by key and appear in module order |
| Engine.FindingsSound | server/akn_profiler/validation/engine.py:62-71 | every reported finding comes from a module that did not raise |
| Engine.FindingsComplete | server/akn_profiler/validation/engine.py:62-71 | every finding of a module that did not raise is reported, up to a duplicate with the same key |
| Engine.ValidateProfile | server/akn_profiler/validation/engine.py:46-71 | a profile that fails to parse returns exactly the parse errors; otherwise the deduplicated findings of the six modules |
| Engine.CollectSkipsRaised | server/akn_profiler/validation/engine.py:65-69 | a module that raises contributes nothing and the others are kept in order |
| Engine.RaisingStrictnessIsSkipped | server/akn_profiler/validation/engine.py:64-69 | when strictness raises, the result is what the first five modules found |
| Engine.EmptyProfileIsClean | server/akn_profiler/validation/engine.py:46-71 | `profile: {}` validates with no findings at all |
| Engine.EmptyProfileNoFindings | server/akn_profiler/validation/engine.py:64-67 | each rule module finds nothing in the all-default profile |
| RulesVocabulary.ValidDocTypes | server/akn_profiler/validation/rules_vocabulary.py:44 | the valid document types are exactly the children `akomaNtoso` allows |
| RulesVocabulary.CheckDocumentTypes | server/akn_profiler/validation/rules_vocabulary.py:37-61 | one `vocabulary.unknown-document-type` error exactly for each listed document type `akomaNtoso` does not allow, at `documentTypes[i]`; none when all are allowed |
| RulesVocabulary.KnownAttrs | server/akn_profiler/validation/rules_vocabulary.py:95 | the known attributes are exactly the names of the element's schema attributes |
| RulesVocabulary.AttributeErrors | server/akn_profiler/validation/rules_vocabulary.py:94-112 | one `vocabulary.unknown-attribute` error exactly for each listed attribute the element does not declare |
| RulesVocabulary.ChildErrors | server/akn_profiler/validation/rules_vocabulary.py:114-135 | one `vocabulary.unknown-element` error exactly for each listed child that is no schema element at all; known but misplaced children are left to the structure rules |
| RulesVocabulary.StructureErrors | server/akn_profiler/validation/rules_vocabulary.py:137-149 | one `vocabulary.unknown-element` error exactly for each unknown structure level, at `structure[i]` |
| RulesVocabulary.ElementErrors | server/akn_profiler/validation/rules_vocabulary.py:77-149 | an unknown element gets exactly one error and no further checks; a known one gets its attribute, child and structure errors in that order |
| RulesVocabulary.CheckElements | server/akn_profiler/validation/rules_vocabulary.py:69-151 | the findings are exactly the per-element findings of the listed elements, all errors |
| RulesVocabulary.Validate | server/akn_profiler/validation/rules_vocabulary.py:21-29 | every finding is an error carrying one of the module's two rule ids |
| RulesStructure.ChildSet | server/akn_profiler/validation/rules_structure.py:54 | the valid children are exactly the element's schema children |
| RulesStructure.MisplacedChildren | server/akn_profiler/validation/rules_structure.py:56-74 | one `structure.invalid-child` error exactly for each listed child that is a known element but not a valid child here |
| RulesStructure.ChildErrors | server/akn_profiler/validation/rules_structure.py:49-74 | unknown parents are skipped; known ones report their misplaced children |
| RulesStructure.ChainErrors | server/akn_profiler/validation/rules_structure.py:127-151 | one `structure.invalid-structure-chain` error at `structure[i+1]` exactly for each consecutive pair of known elements where the first cannot contain the second |
| RulesStructure.StructureReports | server/akn_profiler/validation/rules_structure.py:106-151 | the root error is reported exactly when the first level is a known element the parent cannot contain, and each chain error exactly when its link is broken |
| RulesStructure.StructureErrors | server/akn_profiler/validation/rules_structure.py:99-104 | an empty structure or an unknown element is skipped; otherwise the structure's root and chain reports |
| RulesStructure.ChainReportAt | server/akn_profiler/validation/rules_structure.py:127-151 | each link of the chain is reported if and only if it is broken |
| RulesStructure.CheckChildren | server/akn_profiler/validation/rules_structure.py:36-76 | the findings are exactly the misplaced-child errors of every listed element |
| RulesStructure.CheckStructure | server/akn_profiler/validation/rules_structure.py:84-153 | the findings are exactly the structure errors of every listed element |
| RulesStructure.Validate | server/akn_profiler/validation/rules_structure.py:20-28 | every finding is an error carrying one of the module's three rule ids |
| RulesChoice.BranchLabel | server/akn_profiler/validation/rules_choice.py:81 | a branch is named by its label when that is non-empty, else by its id |
| RulesChoice.DeclaredNames | server/akn_profiler/validation/rules_choice.py:67-69 | the declared names are exactly the keys of `children` and of the exclusive children |
| RulesChoice.GroupEmpty | server/akn_profiler/validation/rules_choice.py:90-106 | the error sits at `children` and points at the `children` line, falling back to the element line when that is missing or zero |
| RulesChoice.EmptyGroupReports | server/akn_profiler/validation/rules_choice.py:73-106 | one `choice.required-group-empty` error exactly for each mandatory group none of whose members is declared; none when every group is met |
| RulesChoice.RequiredGroupErrors | server/akn_profiler/validation/rules_choice.py:62-66 | unknown elements are skipped; known ones report their unmet mandatory groups |
| RulesChoice.IncompleteErrors | server/akn_profiler/validation/rules_choice.py:127-161 | at most one error, reported exactly when a `choice` key was written and it holds fewer than two children, at the `choice` line |
| RulesChoice.ActiveBranches | server/akn_profiler/validation/rules_choice.py:200-206 | the active branches are exactly those sharing a name with `children`, each with its non-empty overlap, in branch order |
| RulesChoice.Conflict | server/akn_profiler/validation/rules_choice.py:211-231 | a conflict is reported at the smallest overlapping child name |
| RulesChoice.ConflictReports | server/akn_profiler/validation/rules_choice.py:208-231 | with two or more active branches, every branch after the first is reported against the first; with one or none, nothing |
| RulesChoice.GroupConflicts | server/akn_profiler/validation/rules_choice.py:196-231 | only exclusive groups can conflict |
| RulesChoice.OneActiveBranchNoConflict | server/akn_profiler/validation/rules_choice.py:208-209 | a group at most one of whose branches is used in `children` raises no conflict |
| RulesChoice.ConflictErrors | server/akn_profiler/validation/rules_choice.py:185-233 | an element with no `children` or unknown to the schema reports nothing; otherwise exactly the conflicts of its exclusive groups |
| RulesChoice.InvalidMember | server/akn_profiler/validation/rules_choice.py:263-273 | an invalid member is reported under `children.choice.<name>` at the `choice` line |
| RulesChoice.InvalidMemberReports | server/akn_profiler/validation/rules_choice.py:258-273 | one `choice.branch-invalid-child` error exactly for each exclusive child the element cannot contain |
| RulesChoice.InvalidMemberErrors | server/akn_profiler/validation/rules_choice.py:251-256 | unknown elements are skipped |
| RulesChoice.Overlap | server/akn_profiler/validation/rules_choice.py:304-317 | an overlap is reported under `children.choice.<name>` at the `choice` line |
| RulesChoice.OverlapErrors | server/akn_profiler/validation/rules_choice.py:295-317 | one `choice.branch-overlap` error exactly for each exclusive child also listed in `children` |
| RulesChoice.CheckRequiredGroups | server/akn_profiler/validation/rules_choice.py:52-108 | the findings are exactly the unmet-group errors of the listed elements |
| RulesChoice.CheckIncompleteBranches | server/akn_profiler/validation/rules_choice.py:116-163 | the findings are exactly the incomplete-choice errors of the listed elements |
| RulesChoice.CheckExclusiveConflicts | server/akn_profiler/validation/rules_choice.py:171-233 | the findings are exactly the branch conflicts of the listed elements |
| RulesChoice.CheckInvalidMembers | server/akn_profiler/validation/rules_choice.py:241-275 | the findings are exactly the invalid exclusive children of the listed elements |
| RulesChoice.CheckOverlap | server/akn_profiler/validation/rules_choice.py:283-319 | the findings are exactly the overlapping exclusive children of the listed elements |
| RulesChoice.Validate | server/akn_profiler/validation/rules_choice.py:33-44 | every finding is an error carrying one of the module's five rule ids |
| RulesDatatype.EnumViolations | server/akn_profiler/validation/rules_datatype.py:76-95 | one `datatype.invalid-enum-value` error exactly for each profile value outside the schema enumeration, at `values[i]`; none when all are allowed |
| RulesDatatype.EnumReports | server/akn_profiler/validation/rules_datatype.py:75-117 | an enumerated attribute checks membership; a free one gets exactly one `datatype.custom-enum-on-free-attribute` note |
| RulesDatatype.PatternViolations | server/akn_profiler/validation/rules_datatype.py:151-166 | one `datatype.pattern-mismatch` error exactly for each value the pattern does not fully match |
| RulesDatatype.PatternReports | server/akn_profiler/validation/rules_datatype.py:133-149 | a missing or uncompilable pattern checks nothing; a usable one checks every value |
| RulesDatatype.AttributeValueErrors | server/akn_profiler/validation/rules_datatype.py:62-128 | an attribute the element does not declare, or one without `values`, reports nothing; otherwise the enumeration reports followed by the pattern reports, using the last declaration of that name |
| RulesDatatype.ElementValueErrors | server/akn_profiler/validation/rules_datatype.py:56-128 | unknown elements report nothing; known ones report exactly their attributes' value errors |
| RulesDatatype.Validate | server/akn_profiler/validation/rules_datatype.py:25-130 | the findings are exactly the value errors of the listed elements, each an error or an informational note with one of the module's ids |
| RulesIdentity.FirstIndex | server/akn_profiler/validation/rules_identity.py:48-67 | the index of the first occurrence, or the length when there is none |
| RulesIdentity.Duplicate | server/akn_profiler/validation/rules_identity.py:51-65 | a duplicate is a warning at `structure[i]` |
| RulesIdentity.DuplicatesSpec | server/akn_profiler/validation/rules_identity.py:43-69 | the reference definition: one warning exactly for each position whose name occurred earlier, naming the first occurrence |
| RulesIdentity.DuplicatesFrom | server/akn_profiler/validation/rules_identity.py:50-67 | every report of the `seen` scan is a duplicate-entry warning |
| RulesIdentity.DuplicatesFromAgree | server/akn_profiler/validation/rules_identity.py:48-67 | the `seen`-map scan reports exactly the positions that repeat an earlier name, with the first index recorded |
| RulesIdentity.DuplicateEntriesSpec | server/akn_profiler/validation/rules_identity.py:38-69 | the scan agrees with the reference definition for every structure list |
| RulesIdentity.FirstOccurrenceNotReported | server/akn_profiler/validation/rules_identity.py:50-67 | the first occurrence of a name is never reported |
| RulesIdentity.CheckDuplicateStructure | server/akn_profiler/validation/rules_identity.py:38-69 | the findings are exactly the duplicate warnings of every element's structure |
| RulesIdentity.Uncovered | server/akn_profiler/validation/rules_identity.py:91-106 | an uncovered document type is an informational note |
| RulesIdentity.CheckDoctypeCoverage | server/akn_profiler/validation/rules_identity.py:77-108 | one note exactly for each document type without an `elements` entry, and none when all are covered |
| RulesIdentity.Validate | server/akn_profiler/validation/rules_identity.py:22-30 | every finding is a warning or a note with one of the module's two ids |
| RulesStrictness.RequiredChildNames | server/akn_profiler/validation/rules_strictness.py:62 | the names of exactly the schema-required children |
| RulesStrictness.RequiredAttrNames | server/akn_profiler/validation/rules_strictness.py:106 | the names of exactly the schema-required attributes |
| RulesStrictness.MissingChildNames | server/akn_profiler/validation/rules_strictness.py:62-64 | a child is missing exactly when the schema requires it and `children` does not list it |
| RulesStrictness.MissingAttrNames | server/akn_profiler/validation/rules_strictness.py:106-108 | an attribute is missing exactly when the schema requires it and `attributes` does not list it |
| RulesStrictness.MissingChildReports | server/akn_profiler/validation/rules_strictness.py:67-80 | one `strictness.missing-required-child` error exactly per missing child, and none when all required children are listed |
| RulesStrictness.ChildReportsContents | server/akn_profiler/validation/rules_strictness.py:67-80 | the reports, taken in sorted name order, name exactly the missing children |
| RulesStrictness.RequiredChildErrors | server/akn_profiler/validation/rules_strictness.py:54-60 | an element without `children` or unknown to the schema is not checked |
| RulesStrictness.MissingAttributeReports | server/akn_profiler/validation/rules_strictness.py:111-124 | one `strictness.missing-required-attribute` error exactly per missing attribute, and none when all are listed |
| RulesStrictness.AttributeReportsContents | server/akn_profiler/validation/rules_strictness.py:111-124 | the reports, taken in sorted name order, name exactly the missing attributes |
| RulesStrictness.RequiredAttributeErrors | server/akn_profiler/validation/rules_strictness.py:98-104 | an element without `attributes` or unknown to the schema is not checked |
| RulesStrictness.WalkResultConcat | server/akn_profiler/validation/rules_strictness.py:189-191 | the missing names of two consecutive walks together are the undeclared names newly visited by both |
| RulesStrictness.WalkRequiredChain | server/akn_profiler/validation/rules_strictness.py:169-193 | the walk visits the element, returns an element already visited unchanged, lists exactly the undeclared names it newly visits, and closes the visited set under required children |
| RulesStrictness.WalkChildren | server/akn_profiler/validation/rules_strictness.py:189-191 | every required child from the position on is visited, with the same guarantees as the walk |
| RulesStrictness.WalkStaysWithin | server/akn_profiler/validation/rules_strictness.py:169-193 | the walk never leaves a set that contains the root and is closed under required children |
| RulesStrictness.WalkChildrenStaysWithin | server/akn_profiler/validation/rules_strictness.py:189-191 | walking required children never leaves such a closed set |
| RulesStrictness.WalkFindsExactlyTheChain | server/akn_profiler/validation/rules_strictness.py:169-193 | a name is reported missing if and only if it lies on the root's required-child chain and the profile does not declare it |
| RulesStrictness.ChainReports | server/akn_profiler/validation/rules_strictness.py:150-164 | one `strictness.missing-required-element` error per missing chain element, with no two alike |
| RulesStrictness.CheckRequiredChain | server/akn_profiler/validation/rules_strictness.py:134-166 | the findings are exactly the chain reports of the document types the schema knows |
| RulesStrictness.ParseCardinality | server/akn_profiler/validation/rules_strictness.py:201-212 | a text without exactly one `..` means `0..*`; otherwise the minimum is the integer before it, and a non-integer part is the `int()` error |
| RulesStrictness.SplitDotted | server/akn_profiler/validation/rules_strictness.py:207 | two dot-free parts joined by `..` split back into those two parts |
| RulesStrictness.CardinalityRoundTrip | server/akn_profiler/validation/rules_strictness.py:201-212 | parsing the `min..max` text of any bounds gives back the same bounds |
| RulesStrictness.LowMinIsNotHighMax | server/akn_profiler/validation/rules_strictness.py:248-282 | the lowered-minimum and raised-maximum reports are told apart by their messages |
| RulesStrictness.CompareBounds | server/akn_profiler/validation/rules_strictness.py:243-282 | a lowered minimum is reported exactly when the profile's minimum is below the schema's, and nothing is reported exactly when the bounds lie within the schema's |
| RulesStrictness.CardinalityReports | server/akn_profiler/validation/rules_strictness.py:242-282 | an unparseable cardinality raises; otherwise its bounds are compared with the schema's |
| RulesStrictness.SchemaCardinalityAccepted | server/akn_profiler/validation/rules_strictness.py:242-282 | writing down the schema's own cardinality of a child is never reported |
| RulesStrictness.ChildCardinalityErrors | server/akn_profiler/validation/rules_strictness.py:235-242 | a bare child or a child the schema does not list is skipped; otherwise its cardinality is checked against the last schema child of that name |
| RulesStrictness.ElementCardinalityErrors | server/akn_profiler/validation/rules_strictness.py:223-239 | an element without `children` or unknown to the schema is skipped; otherwise it raises exactly when one of its cardinalities does |
| RulesStrictness.CheckChildCardinality | server/akn_profiler/validation/rules_strictness.py:215-284 | the check raises exactly when some element's cardinality check raises |
| RulesStrictness.UnrequiredReports | server/akn_profiler/validation/rules_strictness.py:306-328 | one `strictness.loosened-attribute-required` error exactly for each listed attribute the schema requires but the profile does not |
| RulesStrictness.AttributeRequiredErrors | server/akn_profiler/validation/rules_strictness.py:300-304 | unknown elements are skipped |
| RulesStrictness.UndeclaredReports | server/akn_profiler/validation/rules_strictness.py:358-376 | one `strictness.undeclared-child-element` error exactly for each known child that has no `elements` entry of its own |
| RulesStrictness.UndeclaredErrors | server/akn_profiler/validation/rules_strictness.py:352-356 | unknown elements are skipped |
| RulesStrictness.CheckRequiredChildren | server/akn_profiler/validation/rules_strictness.py:46-82 | the findings are exactly the missing-child errors of the listed elements |
| RulesStrictness.CheckRequiredAttributes | server/akn_profiler/validation/rules_strictness.py:90-126 | the findings are exactly the missing-attribute errors of the listed elements |
| RulesStrictness.CheckAttributeRequired | server/akn_profiler/validation/rules_strictness.py:292-330 | the findings are exactly the loosened-attribute errors of the listed elements |
| RulesStrictness.CheckUndeclaredChildren | server/akn_profiler/validation/rules_strictness.py:338-378 | the findings are exactly the undeclared-child errors, judged against all `elements` keys |
| RulesStrictness.Validate | server/akn_profiler/validation/rules_strictness.py:26-38 | the module raises exactly when the cardinality check does; otherwise every finding is an error with one of its ids |
| RulesStrictness.FormattedCardinalitiesNeverRaise | server/akn_profiler/validation/rules_strictness.py:201-212 | a profile whose cardinalities are all well-formed `min..max` texts never makes the module raise |
| CascadeKit.ProfileOf | server/akn_profiler/models/cascade.py:86-91 | the profile is found exactly when the document is a mapping whose profile value is a mapping |
| CascadeKit.ElementsOf | server/akn_profiler/models/cascade.py:474-476 | the elements map is found exactly when the profile is a mapping whose elements value is a mapping |
| CascadeKit.WithElements | server/akn_profiler/models/cascade.py:93-96 | storing an elements map changes only the profile's elements value and leaves every other top-level key alone |
| CascadeKit.WithElementsSame | server/akn_profiler/models/cascade.py:93-96 | storing back the elements map the document already has changes nothing |
| CascadeKit.WithElementsKeeps | server/akn_profiler/models/cascade.py:93-96 | storing an elements map keeps every other profile key's value |
| CascadeKit.PruneChildren | server/akn_profiler/models/cascade.py:529-535 | filtering a children map keeps exactly the wanted keys with their values and removes the children key when nothing is kept |
| CascadeKit.PyIn | server/akn_profiler/models/cascade.py:228 | a membership test is key membership on a mapping, element membership on a list, substring on a string, and raises on null, booleans and numbers |
| CascadeRoot.DocTypes | server/akn_profiler/models/cascade.py:279-281 | the declared document types are empty when missing or falsy, the keys of a map, the characters of a string, the names in a list, and iterating them fails for a number, a boolean or a list holding a list or map |
| CascadeRoot.PresentIn | server/akn_profiler/models/cascade.py:280-281 | a document type is kept exactly when the profile has an entry for it |
| CascadeRoot.AddDocTypes | server/akn_profiler/models/cascade.py:293-295 | each present document type missing from the root's children is added with cardinality 1..1, existing children are untouched |
| CascadeRoot.RootEntry | server/akn_profiler/models/cascade.py:283-297 | the root entry keeps its unrelated keys and existing children and lists every present document type as a child |
| CascadeRoot.RootValue | server/akn_profiler/models/cascade.py:299 | an empty root entry is written as null |
| CascadeRoot.SetRootFirst | server/akn_profiler/models/cascade.py:301-306 | moving the root to the front keeps every other entry and puts the root first |
| CascadeRoot.EnsureRoot | server/akn_profiler/models/cascade.py:267-306 | ensuring the root fails exactly when the document types cannot be iterated, and otherwise puts akomaNtoso first with every present document type among its children and leaves every other entry unchanged |
| CascadeRoot.EnsureRootIdempotent | server/akn_profiler/models/cascade.py:267-306 | ensuring the root a second time changes nothing unless akomaNtoso is itself listed as a document type without an entry |
| CascadeRoot.EnsureRootIgnoresListing | server/akn_profiler/models/cascade.py:267-306 | two elements maps with the same entries, listed in any order, get the same entries from the root step, and it raises for neither or both |
| CascadeRoot.EnsureRootReadsDocTypes | server/akn_profiler/models/cascade.py:267-306 | the root step reads nothing of the profile but `documentTypes` |
| CascadeRoot.SelfListedRootNotIdempotent | server/akn_profiler/models/cascade.py:280-299 | a profile that lists akomaNtoso among its document types gains a self-reference on the second run |
| CascadeExpand.AutoIdList | server/akn_profiler/models/cascade.py:118-127 | the auto-added identity names are exactly eId, wId and GUID for the flags that are set, and only identity names |
| CascadeExpand.IdAttrsFor | server/akn_profiler/models/cascade.py:148-152 | an element receives exactly the requested identity attributes that its schema entry declares |
| CascadeExpand.FirstAttr | server/akn_profiler/models/cascade.py:164 | the lookup of an attribute by name fails exactly when no attribute of that name is declared, and otherwise returns a declared attribute of that name |
| CascadeExpand.AttrsToAdd | server/akn_profiler/models/cascade.py:157-166 | a new entry lists every required attribute and every supported requested identity attribute, and nothing else |
| CascadeExpand.AttrEntry | server/akn_profiler/models/cascade.py:178-180 | an attribute entry is a mapping carrying the given `required` flag, with the attribute's enumeration under `values` exactly when it has one |
| CascadeExpand.PutAttrs | server/akn_profiler/models/cascade.py:170-181 | the loop adds exactly the names of the attributes it is given, leaves every other key alone, sets each flag as its name calls for when the flags agree, and lists under `values` the enumeration of an attribute so named |
| CascadeExpand.NewAttributes | server/akn_profiler/models/cascade.py:168-181 | the new attributes map has distinct keys, holds every required and every supported requested identity attribute, flags identity attributes with the auto-id setting and others with their schema requiredness, and lists under `values` the enumeration of the attribute each entry was made from |
| CascadeExpand.ExclusiveGroup | server/akn_profiler/models/cascade.py:186-191 | the first exclusive choice group is chosen, and none exactly when no group is exclusive |
| CascadeExpand.NewChildren | server/akn_profiler/models/cascade.py:183-208 | the new children map has distinct keys and lists every required child, members of the exclusive group under choice and the others directly; without an exclusive group it lists exactly the required children |
| CascadeExpand.ChoiceMemberOnlyUnderChoice | server/akn_profiler/models/cascade.py:193-206 | a required child that belongs to the exclusive group is listed only inside the choice map, never as a direct child |
| CascadeExpand.NewEntry | server/akn_profiler/models/cascade.py:155-210 | a new entry is null exactly when there are neither attributes nor children to add, and otherwise holds exactly the computed attributes and children maps |
| CascadeExpand.EntryOf | server/akn_profiler/models/cascade.py:168-210 | an entry holds only attributes and children keys, each present exactly when its map is non-empty, and is null when both are empty |
| CascadeExpand.PutMissingRequired | server/akn_profiler/models/cascade.py:227-232 | required attributes that are missing are added and existing attribute entries are left untouched; nothing changes when all are present |
| CascadeExpand.PutMissingRequiredMarks | server/akn_profiler/models/cascade.py:228-232 | every attribute added to an existing entry is marked required: true |
| CascadeExpand.PutMissingRequiredValues | server/akn_profiler/models/cascade.py:226-232 | every attribute added to an existing entry lists under `values` the enumeration of the attribute it was made from |
| CascadeExpand.PutMissingIds | server/akn_profiler/models/cascade.py:233-238 | missing supported identity attributes are added with exactly the auto-id requiredness, existing ones are untouched |
| CascadeExpand.AddMissingAttrs | server/akn_profiler/models/cascade.py:225-238 | the attributes map afterwards holds the old keys plus every required and supported identity attribute, old values unchanged, and is unchanged when already complete |
| CascadeExpand.EnsureAttributes | server/akn_profiler/models/cascade.py:223-238 | the update fails only on a non-map attributes value; otherwise the attributes key appears exactly when there is something to ensure, the other keys are untouched, every attribute entry already present is kept, and the result is settled |
| CascadeExpand.EnsureAttributesSettled | server/akn_profiler/models/cascade.py:225-238 | an entry whose attributes are already settled is returned unchanged |
| CascadeExpand.PutMissingChildren | server/akn_profiler/models/cascade.py:247-249 | missing required children are added with their cardinality and existing child entries are untouched |
| CascadeExpand.FillChildren | server/akn_profiler/models/cascade.py:241-251 | after filling, every required child is listed, existing child entries keep their values, and a complete children map is unchanged |
| CascadeExpand.EnsureChildren | server/akn_profiler/models/cascade.py:240-251 | the children key appears exactly when the element has required children, other keys are untouched, every child entry already present is kept, and every required child is listed afterwards |
| CascadeExpand.EnsureChildrenSettled | server/akn_profiler/models/cascade.py:240-251 | an entry that already lists every required child is returned unchanged |
| CascadeExpand.UpdateEntryBy | server/akn_profiler/models/cascade.py:212-251 | updating an existing entry fails only on a non-map attributes value, leaves scalar entries alone, promotes null only when something is required, keeps every unrelated key, keeps every attribute and child entry already present, and leaves a children key whenever children are required |
| CascadeExpand.UpdateMap | server/akn_profiler/models/cascade.py:223-251 | an updated map keeps unrelated keys and every attribute and child entry it had, stays duplicate-free, and afterwards has settled attributes and lists every required child |
| CascadeExpand.UpdateMapSettled | server/akn_profiler/models/cascade.py:223-251 | a map that is already settled is returned unchanged |
| CascadeExpand.UpdateEntryIdempotent | server/akn_profiler/models/cascade.py:212-251 | updating an existing entry a second time changes nothing, both as written and with choice members counting as listed |
| CascadeExpand.UpdateEntryKeepsNewEntry | server/akn_profiler/models/cascade.py:155-251 | re-expanding an element just created by expansion leaves its entry unchanged when choice members count as listed |
| CascadeExpand.AsWrittenRelists | server/akn_profiler/models/cascade.py:240-251 | as written, the update re-adds a required child that is missing from the direct children even when the choice map lists it |
| CascadeExpand.ReexpandRelistsChoiceChild | server/akn_profiler/models/cascade.py:193-251 | as written, re-expanding an element whose required child was placed under choice adds that child a second time as a direct child |
| CascadeExpand.EntryFor | server/akn_profiler/models/cascade.py:144-251 | the entry's update raises only when the element already has a mapping entry whose `attributes` value is not a mapping; an existing mapping entry keeps every attribute and child entry it had |
| CascadeExpand.RecursiveAdd | server/akn_profiler/models/cascade.py:130-264 | the visited set only grows, and includes the element itself |
| CascadeExpand.RecursiveAddClosed | server/akn_profiler/models/cascade.py:253-264 | once the walk ends, every required child of a newly visited element has been visited |
| CascadeExpand.RecursiveAddOnChain | server/akn_profiler/models/cascade.py:253-264 | every element the walk visits lies on the required-child chain of the element it started from |
| CascadeExpand.WalkAddsChain | server/akn_profiler/models/cascade.py:130-264 | after the walk, every schema element on the start element's required chain has an entry, every other entry is untouched, and no entry is lost |
| CascadeExpand.ExpandElement | server/akn_profiler/models/cascade.py:64-115 | expansion returns the text unchanged exactly when the document is not a mapping with a mapping under profile, and otherwise changes only the profile; this holds for the code as written and for the corrected update |
| CascadeExpand.ExpandElementContents | server/akn_profiler/models/cascade.py:64-115 | as written and corrected alike, the expanded elements map has distinct keys, contains akomaNtoso, keeps every old entry, holds the whole required chain, and leaves every other entry unchanged |
| CascadeExpand.ExpandElementCanonical | server/akn_profiler/models/cascade.py:112-113 | as written and corrected alike, the expanded elements map is in canonical element order |
| CascadeExpand.ExpandElementIdempotent | server/tests/test_cascade.py:63-66 | with choice members counting as listed, expanding the document the first expand dumped dumps exactly that document again, provided the walk does not reach akomaNtoso itself and the root step does not have to create an akomaNtoso entry that lists itself |
| CascadeExpand.ExpandStepSettles | server/akn_profiler/models/cascade.py:155-251 | every entry the corrected step writes, new or updated, is one a further update leaves as it is |
| CascadeExpand.RecursiveAddSettles | server/akn_profiler/models/cascade.py:253-264 | after the corrected walk every schema element it newly visited holds such a settled entry |
| CascadeExpand.WalkSettlesChain | server/akn_profiler/models/cascade.py:98-106 | after the corrected walk every schema element on the start element's required chain holds a settled entry |
| CascadeExpand.RecursiveAddKeeps | server/akn_profiler/models/cascade.py:253-264 | a walk along a required chain whose every step gives back the entry already there succeeds and leaves the elements map exactly as it was |
| CascadeExpand.FirstExpandLeaves | server/akn_profiler/models/cascade.py:98-113 | the document the first corrected expand dumps has elements that the step keeps along the chain and that the root step followed by the ordering gives back unchanged |
| CascadeExpand.ReexpandSame | server/akn_profiler/models/cascade.py:64-115 | a document with such elements is dumped unchanged by an expand |
| CascadeExpand.RootStepKeepsOrder | server/akn_profiler/models/cascade.py:108-113 | when the root step keeps an elements map, rooting and ordering its canonical order gives that canonical order back |
| CascadeOrder.ChildRefs | server/akn_profiler/models/cascade.py:336-347 | only elements that have an entry in the profile count as references, whether listed directly or under a choice map |
| CascadeOrder.BuildGraph | server/akn_profiler/models/cascade.py:331-347 | the parent-to-child graph has exactly the profile's elements as nodes and, for each parent, exactly the references its entry lists |
| CascadeOrder.KidsAreReferences | server/akn_profiler/models/cascade.py:336-347 | an element is a child of a parent in the graph exactly when the parent's entry references it |
| CascadeOrder.InsertSorted | server/akn_profiler/models/cascade.py:390-396 | inserting into the ready list adds exactly the one item and drops nothing |
| CascadeOrder.InsertSortedSorted | server/akn_profiler/models/cascade.py:390-396 | inserting a new item into a strictly sorted list keeps it strictly sorted; this is what makes the ready list a priority queue ordered by name |
| CascadeOrder.InitialReady | server/akn_profiler/models/cascade.py:362-368 | the first ready list holds exactly the elements without parents, without repeats, alphabetical after akomaNtoso, which comes first when present |
| CascadeOrder.Release | server/akn_profiler/models/cascade.py:376-380 | processing an element lowers each child's count of unplaced parents by the number of times the element lists it, and the ready list stays strictly ascending |
| CascadeOrder.ReleaseReady | server/akn_profiler/models/cascade.py:376-380 | a child joins the ready list exactly when its last unplaced parent has been placed |
| CascadeOrder.KahnLoop | server/akn_profiler/models/cascade.py:370-380 | the loop places each element at most once, never before a parent, and stops only when every unplaced element still has an unplaced parent; every element it places after the head of the ready list it was given is the alphabetically least of the elements whose parents are all placed at that point, and so is that head when the list was ascending |
| CascadeOrder.ReadyIsQueued | server/akn_profiler/models/cascade.py:357-380 | between rounds the ready list holds exactly the unplaced elements whose parents are all placed |
| CascadeOrder.HeadLeast | server/akn_profiler/models/cascade.py:371-374 | popping the head of an ascending ready list places the least element that could be placed |
| CascadeOrder.StepSorted | server/akn_profiler/models/cascade.py:376-380 | after a round the ready list is strictly ascending, even when its head was akomaNtoso out of order |
| CascadeOrder.KahnFrom | server/akn_profiler/models/cascade.py:357-380 | started from the sorted roots, the loop places akomaNtoso first when nothing references it and otherwise the least root first, and then always the least element whose parents are all placed |
| CascadeOrder.RootReady | server/akn_profiler/models/cascade.py:358-368 | akomaNtoso is among the initial roots exactly when no entry references it |
| CascadeOrder.KahnOrder | server/akn_profiler/models/cascade.py:357-380 | the topological part of the order lists profile elements without repeats, every element after all of its parents, and leaves out only elements with an unplaced parent; ties are broken alphabetically, with akomaNtoso first when nothing references it |
| CascadeOrder.ComputeElementOrder | server/akn_profiler/models/cascade.py:315-387 | the order lists every profile element exactly once, the topological part first and the elements left over by cycles after it, alphabetically; akomaNtoso comes first when nothing references it, and after the first place the topological part always takes the alphabetically least element whose parents are all placed |
| CascadeOrder.ParentBeforeChild | server/akn_profiler/models/cascade.py:316-324 | in the topological part, an element comes after every parent whose entry references it |
| CascadeOrder.ParentsPlacedThenPlaced | server/akn_profiler/models/cascade.py:370-380 | an element whose parents are all placed is placed itself |
| CascadeOrder.RootFirst | server/akn_profiler/models/cascade.py:362-368 | akomaNtoso comes first whenever no entry lists it as a child |
| CascadeOrder.NoReferencesAlphabetical | server/akn_profiler/models/cascade.py:357-387 | a profile whose entries reference no other profile element is ordered alphabetically, with akomaNtoso first |
| CascadeOrder.NoLeftovers | server/akn_profiler/models/cascade.py:382-385 | when there is no cycle nothing is appended after the topological order |
| CascadeOrder.OrderIgnoresListing | server/akn_profiler/models/cascade.py:315-387 | the order depends only on which entries the profile holds, not on the order they are listed in |
| CascadeOrder.ApplyElementOrder | server/akn_profiler/models/cascade.py:399-404 | reordering the elements lists them in the computed order with every entry's value kept and no duplicates |
| CascadeOrder.ApplyElementOrderIdempotent | server/akn_profiler/models/cascade.py:399-404 | reordering an already reordered elements map changes nothing |
| CascadeOrder.ApplyOrderIgnoresListing | server/akn_profiler/models/cascade.py:399-404 | reordering two elements maps with the same entries gives the same map, whatever order they were listed in |
| CascadeReorder.XsdRank | server/akn_profiler/models/cascade.py:418 | a key's rank is 0 for a required and 1 for an optional schema slot together with its last position, and (2, 999) for a key the schema does not list |
| CascadeReorder.OrderChildren | server/akn_profiler/models/cascade.py:417-440 | the children are a rearrangement ranked by schema order with the choice key kept and placed last; a choice map is itself rearranged by rank, any other choice value is kept as it is |
| CascadeReorder.OrderChildrenContents | server/akn_profiler/models/cascade.py:420-440 | reordering children keeps every child's value and the presence of the choice key |
| CascadeReorder.OrderChoiceContents | server/akn_profiler/models/cascade.py:429-437 | reordering keeps every entry of the choice map |
| CascadeReorder.OrderChildrenIdempotent | server/akn_profiler/models/cascade.py:407-440 | reordering children twice gives the same result as once |
| CascadeReorder.ReorderAttributes | server/akn_profiler/models/cascade.py:443-454 | attributes of an unknown element are returned as they are; otherwise they are a rearrangement sorted by schema rank |
| CascadeReorder.ReorderAttributesContents | server/akn_profiler/models/cascade.py:450-454 | reordering attributes keeps every attribute's value |
| CascadeReorder.ReorderAttributesIdempotent | server/akn_profiler/models/cascade.py:443-454 | reordering attributes twice gives the same result as once |
| CascadeReorder.ReorderChildrenIdempotent | server/akn_profiler/models/cascade.py:407-440 | reordering children of any element twice gives the same result as once |
| CascadeReorder.ReorderEntry | server/akn_profiler/models/cascade.py:479-485 | a non-map entry is left alone; a map entry keeps its keys and unrelated values and has its children and attributes maps reordered |
| CascadeReorder.ReorderEntryIdempotent | server/akn_profiler/models/cascade.py:479-485 | reordering an element entry twice gives the same result as once |
| CascadeReorder.ReorderProfile | server/akn_profiler/models/cascade.py:457-490 | the profile is returned unchanged exactly when it has no elements map, and otherwise only the elements change |
| CascadeReorder.ReorderProfileElements | server/akn_profiler/models/cascade.py:478-488 | the reordered elements map holds the same element names without duplicates, each entry reordered in place |
| CascadeReorder.ReorderProfileCanonical | server/akn_profiler/models/cascade.py:487-488 | the reordered elements map is in canonical element order |
| CascadeReorder.ReorderProfileIdempotent | server/akn_profiler/models/cascade.py:457-490 | reordering a reordered profile changes nothing |
| CascadeCollapse.ChildrenOf | server/akn_profiler/models/cascade.py:562-568 | an element without an entry has no children; otherwise its children are the keys of its children map, if it has one |
| CascadeCollapse.WalkOrphans | server/akn_profiler/models/cascade.py:555-590 | the orphan walk only adds to the removal set, and only elements that have an entry |
| CascadeCollapse.WalkOrphansUnlisted | server/akn_profiler/models/cascade.py:576-589 | every element the walk adds is listed as a child by no element that survives the walk |
| CascadeCollapse.WalkOrphansBelow | server/akn_profiler/models/cascade.py:570-590 | every element the walk adds descends from the element it started from |
| CascadeCollapse.CollectDescendants | server/akn_profiler/models/cascade.py:544-590 | the removal set contains the collapsed element and is closed: in a profile with distinct element names, a child of a removed element is itself removed unless it is `choice`, has no entry, or is still listed by an element that survives |
| CascadeCollapse.WalkOrphansComplete | server/akn_profiler/models/cascade.py:570-590 | after the walk from an element, each of its children and each child of an element the walk added is removed, is `choice`, has no entry, or is listed by an element outside the final removal set |
| CascadeCollapse.WalkChildrenComplete | server/akn_profiler/models/cascade.py:570-590 | the `for child_name in children` loop leaves each of the remaining children, and each child of what it added, removed or still listed outside the final removal set (or `choice`, or without entry) |
| CascadeCollapse.CollectDescendantsSound | server/akn_profiler/models/cascade.py:544-590 | every other element removed has an entry, descends from the collapsed element, and is not listed as a child by any surviving element |
| CascadeCollapse.PruneEntry | server/akn_profiler/models/cascade.py:526-535 | pruning an entry drops exactly the removed children except choice, keeps every surviving child's value and every other field, and deletes the children key when nothing survives |
| CascadeCollapse.PruneAll | server/akn_profiler/models/cascade.py:526-535 | every entry is pruned in place and no entry is dropped by pruning |
| CascadeCollapse.CollapseElements | server/akn_profiler/models/cascade.py:523-539 | the collapsed elements map holds exactly the entries outside the removal set |
| CascadeCollapse.CollapseElementsContents | server/akn_profiler/models/cascade.py:523-539 | the collapsed element is gone, every survivor is its pruned old entry, and no survivor lists a removed element as a direct child |
| CascadeCollapse.CollapseRemovesOnlyOrphans | server/akn_profiler/models/cascade.py:503-506 | an element other than the collapsed one is removed only if it descends from it and no surviving element lists it; conversely, with distinct element names, an element with an entry that a removed element listed (other than `choice`) survives only if a surviving element lists it too |
| CascadeCollapse.CollapseKeepsChoice | server/akn_profiler/models/cascade.py:531-533 | the choice map under each surviving entry's children is kept exactly as it was |
| CascadeCollapse.CollapseElement | server/akn_profiler/models/cascade.py:498-541 | collapse returns the text unchanged exactly when there is no profile map or its elements value is not a map, never fails, and changes only the profile |
| BlankLines.Step | server/akn_profiler/models/cascade.py:640-657 | each input line is copied, preceded by at most one blank line, and a blank line is added exactly when the line opens a major section or an element entry after a non-blank line |
| BlankLines.Layout | server/akn_profiler/models/cascade.py:611-659 | the pass keeps every input line in order and never adds a blank line first or after a blank line |
| BlankLines.InsertBlankLines | server/akn_profiler/models/cascade.py:611-659 | the output is the input with some single blank lines inserted, none at the start and none after a blank line |
| BlankLines.PassOriginals | server/akn_profiler/models/cascade.py:625-657 | the loop copies the remaining input lines in order, whatever it inserts |
| BlankLines.LayoutIsExpected | server/akn_profiler/models/cascade.py:611-659 | a blank line goes before a line exactly when the previous line is not blank and the line opens documentTypes or elements, or is a four-space entry inside elements not directly after the elements line |
| Generator.Collect | server/akn_profiler/models/generator.py:196-213 | a dict built by a comprehension has one entry per key |
| Generator.CollectKeys | server/akn_profiler/models/generator.py:196-213 | its keys are exactly the keys of the kept items |
| Generator.CollectGet | server/akn_profiler/models/generator.py:196-213 | each key holds the value of the last kept item with that key |
| Generator.RestrictionAttributes | server/akn_profiler/models/generator.py:195-206 | an attribute is listed exactly when the schema declares it and it is required or optional attributes were asked for; it carries the schema's requiredness and enumeration values |
| Generator.RestrictionChildren | server/akn_profiler/models/generator.py:208-213 | a child is listed exactly when the schema declares it and it is required or optional children were asked for; it carries the schema's cardinality text |
| Generator.AddElement | server/akn_profiler/models/generator.py:182-218 | an unknown name changes nothing; a known one gets its generated restriction and every other entry stays as it was |
| Generator.AddAll | server/akn_profiler/models/generator.py:162-179 | adding a sequence of names gives every known one its restriction, adds nothing else and leaves other entries alone |
| Generator.VisitOrderIsChain | server/akn_profiler/models/generator.py:140-179 | the walk visits exactly the names on the document type's required-child chain |
| Generator.GenerateProfile | server/akn_profiler/models/generator.py:44-103 | a document type `akomaNtoso` does not allow is the `ValueError`; otherwise the profile lists that one type, has version `1.0`, and holds exactly `akomaNtoso` and the known elements on the type's required chain, each with its generated restriction |
| Generator.OptionalAttributesSuperset | server/akn_profiler/models/generator.py:196-198 | asking for optional attributes only ever adds attributes |
| Generator.Items | server/akn_profiler/models/generator.py:238-239 | one line per item, each the prefix followed by the item |
| Generator.ElementBlock | server/akn_profiler/models/generator.py:244-274 | an element's block starts with its `    name:` heading and every line is indented under `elements` |
| Generator.ElementLines | server/akn_profiler/models/generator.py:242-274 | the `elements` section is its heading followed by indented lines only |
| Generator.PlainYaml | server/akn_profiler/models/generator.py:226-276 | the text starts with `profile:` and ends with a newline |
| Generator.FindLine | server/akn_profiler/models/generator.py:236-240 | the first line equal to the key, and none exactly when no line is |
| Generator.ReadItemsOf | server/akn_profiler/models/generator.py:238-239 | reading back the item lines gives the items |
| Generator.PlainYamlDocumentTypes | server/akn_profiler/models/generator.py:226-276 | reading the `documentTypes` list back out of the plain YAML gives the profile's document types |
| Generator.WithoutDocumentTypes | server/akn_profiler/models/generator.py:236 | without document types no `documentTypes` section is written |
| Generator.WithDocumentTypes | server/akn_profiler/models/generator.py:236-240 | with document types the section lists them in order |
| Generator.ElementHeadings | server/akn_profiler/models/generator.py:244-249 | every element gets its own heading line |
| Generator.GeneratedYamlDocumentTypes | server/akn_profiler/models/generator.py:106-132 | the plain YAML of a generated profile declares exactly the requested document type |
| SnippetGenerator.GetDocumentTypes | server/akn_profiler/models/snippet_generator.py:25-27 | the document types are exactly the children `akomaNtoso` allows, in order, and none when the schema lacks `akomaNtoso` |
| SnippetGenerator.GenerateSnippet | server/akn_profiler/models/snippet_generator.py:30-75 | an invalid document type is the `ValueError`; a valid one gives the scaffold joined by newlines |
| SnippetGenerator.SnippetAgreesWithGenerator | server/akn_profiler/models/snippet_generator.py:50-51 | the snippet and the profile generator accept exactly the same document types |
| SnippetGenerator.SnippetDocumentTypes | server/akn_profiler/models/snippet_generator.py:61-75 | the scaffold declares exactly the one document type it was asked for |
| YamlContext.BlankIsStripEmpty | server/akn_profiler/validation/yaml_context.py:106 | a line counts as blank exactly when stripping it leaves nothing |
| YamlContext.NextNonBlank | server/akn_profiler/validation/yaml_context.py:105-107 | the search forward returns the first non-blank line at or after the start, or none when all remaining lines are blank |
| YamlContext.PrevNonBlank | server/akn_profiler/validation/yaml_context.py:109-111 | the search backward returns the last non-blank line before the stop, or none when all earlier lines are blank |
| YamlContext.InferFromNext | server/akn_profiler/validation/yaml_context.py:97-107 | an empty cursor line takes the indent of the next non-blank line below it |
| YamlContext.InferFromPrevious | server/akn_profiler/validation/yaml_context.py:108-111 | with nothing but blanks below, an empty cursor line takes the indent of the nearest non-blank line above it |
| YamlContext.InferAlone | server/akn_profiler/validation/yaml_context.py:112 | an empty line with no non-blank neighbour has indent 0 |
| YamlContext.ParseKey | server/akn_profiler/validation/yaml_context.py:88-120 | a line parses as a key exactly when it is whitespace, an identifier-like name and a colon, and the indent is the length of that leading whitespace; a non-key line reports its leading spaces |
| YamlContext.ParseKeyOf | server/akn_profiler/validation/yaml_context.py:88-120 | a line made of spaces, a key name and a colon parses as that key at the indent given by the spaces |
| YamlContext.NearestParent | server/akn_profiler/validation/yaml_context.py:208-216 | the backward walk finds the nearest earlier key line indented less than the bound, or none |
| YamlContext.AncestorsOrdered | server/akn_profiler/validation/yaml_context.py:206-220 | the ancestor keys are listed outermost first with strictly increasing indents, all below the cursor's indent |
| YamlContext.AncestorsAreParentChain | server/akn_profiler/validation/yaml_context.py:208-220 | the ancestors are the nearest parent key preceded by that parent's own ancestors, stopping at a key with indent 0 |
| YamlContext.BuildKeyStack | server/akn_profiler/validation/yaml_context.py:191-226 | the key stack has strictly increasing indents, ends with the cursor line's own key when there is one, and otherwise is exactly the chain of ancestor keys |
| YamlContext.OwnKeyInside | server/akn_profiler/validation/yaml_context.py:197-204 | a key on the cursor line is never indented less than the cursor's target indent |
| YamlContext.ScopeFromStack | server/akn_profiler/validation/yaml_context.py:354-453 | the scope is decided by the key path alone: root outside profile, then documentTypes, elements, element name or body, attributes and their bodies and values, children or choice branches, structure, and profile otherwise; element and attribute names are the third and fifth keys |
| YamlContext.BlockEnd | server/akn_profiler/validation/yaml_context.py:243-249 | the sibling block ends at the first later key line indented less than the cursor, or at the end |
| YamlContext.KeysAt | server/akn_profiler/validation/yaml_context.py:243-247 | the sibling scan collects exactly the keys at the cursor's indent within the block |
| YamlContext.FindKey | server/akn_profiler/validation/yaml_context.py:301-307 | the search returns the first line in range carrying the given key at the given indent, or none |
| YamlContext.ItemsEnd | server/akn_profiler/validation/yaml_context.py:261-262 | the list scan stops at the first later non-blank line indented less than the cursor |
| YamlContext.ItemsOf | server/akn_profiler/validation/yaml_context.py:252-260 | a line contributes a list item exactly when it is a dash item at the cursor's indent, with the text before any comment |
| YamlContext.ItemsAt | server/akn_profiler/validation/yaml_context.py:252-262 | the collected list items are exactly the non-empty item texts in range |
| YamlContext.BlockStart | server/akn_profiler/validation/yaml_context.py:233-242 | the block starts just after the nearest earlier key line indented less than the cursor, or at the top |
| YamlContext.SiblingKeys | server/akn_profiler/validation/yaml_context.py:229-264 | every collected sibling is a key or list item at the cursor's indent, and every key at that indent inside the cursor's block is collected |
| YamlContext.ChildrenLine | server/akn_profiler/validation/yaml_context.py:329-336 | the children line found is an earlier key named children, indented less than the cursor, with no parent key of the element in between |
| YamlContext.CrossBlockKeys | server/akn_profiler/validation/yaml_context.py:267-351 | cross-block keys are collected only for children and choice scopes: under children they are keys of the choice block one level deeper, under choice they are the sibling children keys, never choice itself |
| YamlContext.Clamp | server/akn_profiler/validation/yaml_context.py:149-150 | a line number past the end is moved to the last line, any other is kept |
| YamlContext.ResolveContext | server/akn_profiler/validation/yaml_context.py:128-183 | the scope is empty exactly when the document is all blank, and then everything else is empty; otherwise the line text is the clamped cursor line, cross-block keys appear only in children and choice scopes, and an element name appears only in element scopes |
| ServerText.SeverityLevel | server/akn_profiler/server.py:216 | error, warning and information map one-to-one onto the LSP severities |
| ServerText.SeverityLevelInjective | server/akn_profiler/server.py:216 | distinct severities never share an LSP level |
| ServerText.ErrorToDiagnostic | server/akn_profiler/server.py:206-219 | a 1-based line becomes 0-based and a missing or zero line becomes line 0; a missing column is 0; the range is 1000 characters on one line; message, code, source and severity are carried over |
| ServerText.AroundUnique | server/akn_profiler/server.py:871-877 | the word boundaries around a position are unique |
| ServerText.WordAt | server/akn_profiler/server.py:862-880 | nothing past the last line or the end of the line; otherwise the maximal run of letters, digits, `_` and `-` around the cursor, `None` when that run is empty |
| ServerText.NameRun | server/akn_profiler/server.py:1397 | the longest prefix of word characters and hyphens |
| ServerText.LooseKey | server/akn_profiler/server.py:1397 | a match is always a name: a word character followed by word characters and hyphens |
| ServerText.LooseKeyShape | server/akn_profiler/server.py:1397 | a match means the line is optional spaces, the name, optional spaces and a colon |
| ServerText.LooseKeyOf | server/akn_profiler/server.py:1397 | conversely every line of that shape matches with that name |
| ServerText.TightKey | server/akn_profiler/server.py:1188 | a match is always a name |
| ServerText.TightKeyShape | server/akn_profiler/server.py:1188 | a match means the line is at least one space, the name and then a colon |
| ServerText.TightKeyOf | server/akn_profiler/server.py:1188 | conversely every line of that shape matches with that name |
| ServerText.ChildNameAtLine | server/akn_profiler/server.py:1382-1398 | nothing past the end, for a line without content or colon, or when the stripped-away whitespace (leading and trailing) differs from the expected indent; a result is the line's key |
| ServerText.ChildNameOfEntry | server/akn_profiler/server.py:1382-1398 | a children entry written at the expected indent yields its child name |
| ServerText.FindElementContext | server/akn_profiler/server.py:1157-1203 | never a structural key; an indented non-structural key on the line itself is the answer; otherwise the nearest earlier line with a non-structural key indented less than the line, and `None` exactly when there is none |
| ServerText.SectionEnd | server/akn_profiler/server.py:1425-1435 | the last non-blank line after the start reached before the first non-blank line at or below the indent, or the start itself when there is none |
| ServerText.FullDocumentEdit | server/akn_profiler/server.py:1335-1354 | no edit exactly when the text is unchanged; otherwise the new text replaces from (0,0) to the end of the last line as `splitlines` sees it |
| ServerText.LineLength | server/akn_profiler/server.py:1339 | the length of the first line is the position of the first LSP line break |
| ServerText.FullDocumentEditKeepsFinalBreak | server/akn_profiler/server.py:1339-1341 | replacing `"a\n"` with `"b\n"` ends the range at (0,1), so the edit leaves `"b\n\n"` |
| ServerText.EndPosition | server/akn_profiler/server.py:1339-1341 | the position past the last character, counting LSP line breaks |
| ServerText.EndPositionIsEnd | server/akn_profiler/server.py:1339-1341 | that position lies at the very end of the text |
| ServerText.WholeDocumentEdit | server/akn_profiler/server.py:1335-1354 | no edit exactly when the text is unchanged; otherwise the new text from (0,0) to the end position |
| ServerText.WholeDocumentEditReplaces | server/akn_profiler/server.py:1335-1354 | applying the corrected edit turns the old text into exactly the new text |
| ServerEdits.VisitFrom | server/akn_profiler/server.py:1313-1331 | the `for child in children` loop only adds to the set, and each added name also goes on the stack, so the walk's measure does not grow |
| ServerEdits.StackWalk | server/akn_profiler/server.py:1306-1331 | the `while queue` loop only adds to the set |
| ServerEdits.StackWalkOrphans | server/akn_profiler/server.py:1313-1331 | the loop keeps every collected name other than the start an entry that no entry outside the set lists |
| ServerEdits.StackWalkBelow | server/akn_profiler/server.py:1313-1331 | the loop keeps every collected name a descendant of the start |
| ServerEdits.StackWalkComplete | server/akn_profiler/server.py:1306-1332 | with distinct element names, when the stack empties, every child of a collected name is collected, has no entry, or is listed by an entry outside the set |
| ServerEdits.CollectOrphanedElements | server/akn_profiler/server.py:1302-1332 | every collected name descends from the starting element, and each one other than the start has an entry and is listed by no entry outside the collected set; conversely, with distinct element names, every child of a collected name that has an entry and is not collected is listed by an entry outside the set |
| ServerEdits.ParentPruned | server/akn_profiler/server.py:1252-1262 | only the parent changes, losing the child from `children` and losing `children` itself when it empties |
| ServerEdits.PruneRemoved | server/akn_profiler/server.py:1279-1288 | every entry forgets the removed names from its `children`, keeping the key order |
| ServerEdits.RemoveOrphans | server/akn_profiler/server.py:1274-1288 | exactly the collected names lose their entries, and every survivor forgets them |
| ServerEdits.Removed | server/akn_profiler/server.py:1277-1278 | the removed names are exactly those present before and absent after |
| ServerEdits.ParentStep | server/akn_profiler/server.py:1260-1262 | after the first step the parent no longer lists the child and keeps no empty `children` |
| ServerEdits.ParentAfterOrphans | server/akn_profiler/server.py:1274-1288 | removing orphans keeps the parent free of the child and of an empty `children` |
| ServerEdits.OrphanStep | server/akn_profiler/server.py:1274-1288 | the orphaned child goes, no entry is added, everything removed descends from it and was listed only by removed entries, no survivor lists a removed name, and (with distinct element names) every child of a removed name that keeps its entry is listed by a survivor |
| ServerEdits.OrphansPruned | server/akn_profiler/server.py:1274-1288 | after the orphans go, each survivor is its old entry with exactly the removed names dropped from `children`, every other field and child entry kept |
| ServerEdits.BuildChildRemove | server/akn_profiler/server.py:1228-1299 | an edit exists exactly when the parent's `children` mapping lists the child; nothing outside `profile` changes and `profile` changes only under `elements`; the parent stops listing the child; a child still listed elsewhere keeps its entry and nothing else changes; an orphaned child goes together with exactly the descendants that become orphaned: each removed name descends from it and is listed by no survivor, and (with distinct element names) each child of a removed name that keeps its entry is listed by a survivor; every survivor keeps all its fields and child entries except the removed names |
| StableSort.InsertBy | server/akn_profiler/server.py:1996 | inserting keeps the elements as a multiset, adds the new one, and keeps the sequence sorted |
| StableSort.SortBy | server/akn_profiler/server.py:1996 | the sort is a permutation, sorted by position, and stable: the tokens of each position keep their relative order |
| StableSort.SortBySorted | server/akn_profiler/server.py:1996 | a sequence already in order is left as it is |
| StableSort.SortByIdempotent | server/akn_profiler/server.py:1996 | sorting twice is the same as sorting once |
| SemanticTokens.Chunk | server/akn_profiler/server.py:2001-2003 | each token becomes exactly five integers |
| SemanticTokens.EncodeFrom | server/akn_profiler/server.py:2000-2005 | the encoding has five integers per token |
| SemanticTokens.DecodeEncode | server/akn_profiler/server.py:2000-2005 | decoding the relative encoding from the same start gives back every token's absolute line, column, length, type and modifiers |
| SemanticTokens.SortedLines | server/akn_profiler/server.py:1996 | tokens sorted by position never go back to an earlier line |
| SemanticTokens.EncodeForward | server/akn_profiler/server.py:2001-2002 | on sorted tokens every line delta is non-negative, and the column delta is non-negative within a line |
| SemanticTokens.EncodeTokens | server/akn_profiler/server.py:1993-2006 | the loop emits five integers per token, the encoding decodes to the tokens in sorted order, and all deltas move forward |
| SemanticTokens.EncodingOfSorted | server/akn_profiler/server.py:1993-2006 | the encoding of the sorted tokens has the right length, decodes back to them and moves forward |

## Where the model, the code and its documentation differ

The model departs from the code in two places:

- The choice rules (`server/akn_profiler/validation/rules_choice.py`, lines 69, 138, 252 and 296) read `restriction.exclusive_children`. `ElementRestriction` in `server/akn_profiler/models/profile.py` declares no such field and never lifts `choice` out of `children`. The model adds the field and performs the lift (`Profile.ExtractChoice`), because every choice rule depends on it. As written, a rule that reaches that read raises `AttributeError`, and the engine drops the module (`server/akn_profiler/validation/engine.py:68-69`).
- Expanding an element that already has an entry (`server/akn_profiler/models/cascade.py:240-249`) tests only `c.name not in child_dict`. `CascadeExpand.ExpandElement` and the members beneath it take a flag: `false` is the code as written and `true` also counts a required child listed under `choice` as present (first row of "## Findings"). `ExpandElement`, `ExpandElementContents`, `ExpandElementCanonical`, `WalkAddsChain` and `UpdateEntryIdempotent` are stated for both.

In each remaining case below the model follows the code:

- The undeclared-child scan of the structure rules looks only at `children` mappings, not at `choice` branches.
- The datatype rules emit their informational finding for custom enumerations, although a test describes the opposite.
- The generator's docstring promises a profile that validates with zero errors. By default the generator lists only required children. When no member of a mandatory choice group is individually required, none of them is listed, and the choice rule reports `choice.required-group-empty`.
- The engine does not sort findings by position. It keeps module order (vocabulary, structure, choice, datatype, identity, strictness) and first occurrence.
- The `compute_element_order` docstring says `akomaNtoso` is always first and orphans go last. The code puts `akomaNtoso` first only when no entry lists it as a child. Unreferenced elements are placed among the other roots alphabetically.
- `collapse_element` never removes names from `choice` maps.
- Indent calculations in `yaml_context.py` count leading spaces only. Key detection accepts any leading whitespace.

## Left out

- YAML text parsing and dumping (`yaml.safe_load`, `yaml.compose`, `yaml.dump`, the custom dumper). These are library code. The model works on the parsed value and node trees, and on the dumped text for the blank-line pass.
- pydantic's lax coercions beyond booleans, strings and string lists. Profile fields only use those three.
- The LSP wiring: server start-up, the document store, the handlers for completion, hover, code lens and code actions, and the command registrations. These are protocol plumbing around the modelled functions.
- Loading the XSD through xsdata, including `_index_enums`, `_index_elements`, `_extract_doc`, `_type_hint_str`, `_enum_values_for_field`, `_element_type_name` and `_parse_attribute_group_docs`. They introspect generated Python classes. Their result is the `AknSchema` value the model takes as input.
- `_to_commented_yaml`, the default commented output of the generator (`server/akn_profiler/models/generator.py:279-364`), is not modelled; only the plain `yaml.dump` layout is.
- Line breaks: Python's `splitlines` and the LSP line-break rules are modelled as `\n`, `\r\n` and `\r`. Columns are counted in characters, not UTF-16 code units.
- Unicode `str.isalnum` and the regex class `\w` are modelled on ASCII.
- The text of validation messages is a template with arguments, not formatted strings.
- The first loop of the `CHILDREN` branch in `_collect_cross_block_keys` (`server/akn_profiler/validation/yaml_context.py:286-289`) is not modelled. Its result is never used. The same holds for `is_list_item` in `_scope_from_stack` and the cursor column passed to `resolve_context`.
- Logging.
- SnippetGenerator.GenerateSnippet: it does not prove that the scaffold has no `children` or `attributes` keys. Deciding that over the literal lines is beyond the solver's budget; the read-back of the document type is proved instead.
- RulesVocabulary.Validate, RulesStructure.Validate, RulesChoice.Validate, RulesDatatype.Validate, RulesIdentity.Validate, RulesStrictness.Validate: each contract only states the severities and rule ids of the findings. The findings themselves are stated by the per-check members of each module.
- Profile.ExtractChoice: it only states that the lifted `choice` value becomes a mapping. How a legacy list of one-entry mappings is merged, later keys winning, is not stated.
- ServerEdits.BuildChildRemove: for a child that no entry lists any more but that has no entry of its own, it does not state that no entry is removed. There the pruned parent is the whole change.
- Yaml.Construct: mapping keys are the scalar's text and there are no floats. `yaml.safe_load` builds int, bool, float and `None` keys and float values, and pydantic then rejects a non-text key such as the `1` of `children: {1: …}`; the model accepts that key as the text `"1"`. No profile field holds a float.
- Yaml.ConstructPairs: each key is its scalar's text, not the typed key PyYAML constructs, for the reason given under Yaml.Construct.
- Strings.ParseInt: it accepts surrounding whitespace, an optional sign and ASCII digits. Python's `int()` also accepts `_` between digits (`1_0`) and non-ASCII Unicode digits; the model rejects those.
- RulesStrictness.ParseCardinality: it parses its bounds with Strings.ParseInt, so a bound such as `1_0` is an error in the model and ten in the code.
- CascadeExpand.ExpandElementIdempotent: it is proved with choice members counting as listed, and not when the walk from the element reaches `akomaNtoso` itself, whose entry the root step rewrites after the walk, nor when the root step has to create an `akomaNtoso` entry while `akomaNtoso` is named as a document type (CascadeRoot.SelfListedRootNotIdempotent). As written, a second expand can add a choice member as a direct child (first row of "## Findings"). It states equality of the dumped values, which is stronger than the equality of the reloaded YAML the test checks.
- ChoiceParser.BuildChoiceGroup: it parses `minOccurs` and `maxOccurs` with Strings.ParseInt, with the same narrower grammar.

## Findings

| source | as written | input that shows it | evidently intended | confidence | as-written member | corrected member |
|---|---|---|---|---|---|---|
| server/akn_profiler/models/cascade.py:240-251 | expanding an element that already exists adds every missing required child to its plain `children` mapping. A new entry puts members of the first exclusive group only under `choice` (lines 193-206). | an element with one exclusive group whose only member `a` is required: expanding it twice adds `a` as a direct child on the second run | re-expanding leaves an entry created by expansion unchanged, with choice members counting as listed | not executed | CascadeExpand.ReexpandRelistsChoiceChild | CascadeExpand.UpdateEntryKeepsNewEntry |
| server/akn_profiler/server.py:1339-1341 | the full-document edit ends at the last line `splitlines` reports, so a final line break lies outside the replaced range | old text `"a\n"`, new text `"b\n"`: the range ends at (0, 1) and the document becomes `"b\n\n"` | the edit replaces the whole old text | not executed | ServerText.FullDocumentEditKeepsFinalBreak | ServerText.WholeDocumentEditReplaces |
