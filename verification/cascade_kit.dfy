/**
 What the three text-to-text cascade operations of `models/cascade.py`
 share. YAML loading and dumping are not modelled: an operation receives
 the value `yaml.safe_load` built and says whether it returns the text
 unchanged, dumps a new value, or raises.
 */
module CascadeKit {
  import opened Wrappers
  import opened Strings
  import opened Dicts
  import opened Yaml

  /** The result of a cascade operation on profile text. */
  datatype Outcome =
    | Unchanged          // `return yaml_text`
    | Dumped(raw: Value) // `return _dump(raw)`
    | Raised             // a `TypeError` escapes

  /**
   The `profile` mapping of a loaded document: `None` when the document
   is not a mapping, has no `profile` key, or its `profile` is not a
   mapping — the three cases in which every operation returns the text
   unchanged.
   */
  function ProfileOf(raw: Value): (r: Option<Dict<Value>>)
    ensures r.Some? <==> raw.Map? && Field(raw, "profile").Some? && Field(raw, "profile").value.Map?
    ensures r.Some? ==> Field(raw, "profile") == Some(Map(r.value))
  {
    match Field(raw, "profile")
    case Some(Map(p)) => Some(p)
    case _ => None
  }

  /**
   `profile.get("elements")` when it is a mapping: `None` in every case in
   which reordering and collapsing leave the text unchanged.
   */
  function ElementsOf(raw: Value): (r: Option<Dict<Value>>)
    ensures r.Some? <==>
      (ProfileOf(raw).Some? && Get(ProfileOf(raw).value, "elements").Some? && Get(ProfileOf(raw).value, "elements").value.Map?)
    ensures r.Some? ==> Get(ProfileOf(raw).value, "elements") == Some(Map(r.value))
  {
    match ProfileOf(raw)
    case None => None
    case Some(p) =>
      var e: Option<Value> := Get(p, "elements");
      match e
      case Some(Map(els)) => Some(els)
      case _ => None
  }

  /** `raw` with its `profile` mapping replaced, in place. */
  function WithProfile(raw: Value, profile: Dict<Value>): (r: Value)
    requires raw.Map?
    ensures r.Map? && Field(r, "profile") == Some(Map(profile))
    ensures Keys(r.entries) == if "profile" in Keys(raw.entries) then Keys(raw.entries) else Keys(raw.entries) + ["profile"]
  {
    Map(Put(raw.entries, "profile", Map(profile)))
  }

  /** Both documents have a `profile` mapping, and the two agree on every key but `elements`. */
  ghost predicate OnlyElementsDiffer(raw: Value, r: Value)
  {
    && ProfileOf(raw).Some? && ProfileOf(r).Some?
    && forall k :: k != "elements" ==> Get(ProfileOf(r).value, k) == Get(ProfileOf(raw).value, k)
  }

  /** `raw` with `profile.elements` replaced, in place. */
  function WithElements(raw: Value, els: Dict<Value>): (r: Value)
    requires ProfileOf(raw).Some?
    ensures ProfileOf(r) == Some(Put(ProfileOf(raw).value, "elements", Map(els)))
    ensures OnlyElementsDiffer(raw, r)
    ensures ElementsOf(r) == Some(els)
    ensures forall k :: k != "profile" ==> Field(r, k) == Field(raw, k)
  {
    var p := Put(ProfileOf(raw).value, "elements", Map(els));
    var r := WithProfile(raw, p);
    assert ProfileOf(r) == Some(p);
    r
  }

  /** Replacing the elements keeps every other profile key's value. */
  lemma WithElementsKeeps(raw: Value, els: Dict<Value>, k: string)
    requires ProfileOf(raw).Some? && k != "elements"
    ensures Get(ProfileOf(WithElements(raw, els)).value, k) == Get(ProfileOf(raw).value, k)
  {
    assert OnlyElementsDiffer(raw, WithElements(raw, els));
  }

  /** Writing back the elements a document already has changes nothing. */
  lemma WithElementsSame(raw: Value, els: Dict<Value>)
    requires ElementsOf(raw) == Some(els)
    ensures WithElements(raw, els) == raw
  {
    var p := ProfileOf(raw).value;
    PutSame(p, "elements", Map(els));
    PutSame(raw.entries, "profile", Map(p));
  }

  /** A mapping entry's `children` mapping, empty when it has none. */
  function ChildMapOf(v: Value): (r: Dict<Value>)
    ensures v.Map? && Field(v, "children").Some? && Field(v, "children").value.Map? ==> Field(v, "children") == Some(Map(r))
    ensures !(v.Map? && Field(v, "children").Some? && Field(v, "children").value.Map?) ==> r == []
  {
    var ch: Option<Value> := Field(v, "children");
    match ch
    case Some(Map(c)) => c
    case _ => []
  }

  /**
   The pruning of one entry's `children`: a mapping entry whose
   `children` is a mapping keeps the children `keep` accepts, in order,
   or loses `children` when none are left; any other entry is left as it
   is.
   */
  function PruneChildren(v: Value, keep: string -> bool): (r: Value)
    ensures r.Map? <==> v.Map?
    ensures forall f :: f != "children" ==> Field(r, f) == Field(v, f)
    ensures forall k :: k in Keys(ChildMapOf(r)) <==> k in Keys(ChildMapOf(v)) && keep(k)
    ensures forall k :: keep(k) ==> Get(ChildMapOf(r), k) == Get(ChildMapOf(v), k)
    ensures Field(v, "children").Some? && Field(v, "children").value.Map? ==>
      (Field(r, "children").None? <==> forall k :: k in Keys(ChildMapOf(v)) ==> !keep(k))
    ensures Field(v, "children").Some? && Field(v, "children").value.Map? ==>
      (Field(r, "children").None? || (Field(r, "children").value.Map? && |ChildMapOf(r)| > 0))
    ensures !(Field(v, "children").Some? && Field(v, "children").value.Map?) ==> r == v
  {
    match v
    case Map(d) =>
      var ch: Option<Value> := Get(d, "children");
      (match ch
       case Some(Map(c)) =>
         var kept := Filter(c, keep);
         assert ChildMapOf(v) == c;
         PruneFacts(d, c, keep);
         if kept == [] then Map(Remove(d, "children"))
         else Map(Put(d, "children", Map(kept)))
       case _ => v)
    case _ => v
  }

  /** What pruning does to the `children` mapping `c` of the entry `d`, in both branches. */
  lemma PruneFacts(d: Dict<Value>, c: Dict<Value>, keep: string -> bool)
    requires Get(d, "children") == Some(Map(c))
    ensures forall k :: k in Keys(Filter(c, keep)) <==> k in Keys(c) && keep(k)
    ensures forall k :: keep(k) ==> Get(Filter(c, keep), k) == Get(c, k)
    ensures Filter(c, keep) == [] <==> forall k :: k in Keys(c) ==> !keep(k)
    ensures ChildMapOf(Map(Remove(d, "children"))) == [] && Field(Map(Remove(d, "children")), "children").None?
    ensures Filter(c, keep) != [] ==>
      var r := Map(Put(d, "children", Map(Filter(c, keep))));
      ChildMapOf(r) == Filter(c, keep) && Field(r, "children") == Some(Map(Filter(c, keep)))
  {
    var kept := Filter(c, keep);
    FilterKeys(c, keep);
    FilterGet(c, keep);
    if kept != [] {
      assert Keys(kept)[0] == kept[0].key;
      var r := Map(Put(d, "children", Map(kept)));
      assert Field(r, "children") == Some(Map(kept));
    }
  }

  /**
   Python's `key in v` for a string `key`: membership among the keys of
   a mapping, among the items of a list, a substring test on a string;
   `None` where Python raises `TypeError`.
   */
  function PyIn(v: Value, key: string): (r: Option<bool>)
    ensures r.None? <==> v.Null? || v.Bool? || v.Int?
    ensures v.Map? ==> r == Some(key in Keys(v.entries))
    ensures v.List? ==> r == Some(Str(key) in v.items)
    ensures v.Str? ==> r == Some(Contains(v.s, key))
  {
    match v
    case Map(d) => Some(key in Keys(d))
    case List(items) => Some(Str(key) in items)
    case Str(s) => Some(Contains(s, key))
    case _ => None
  }
}
