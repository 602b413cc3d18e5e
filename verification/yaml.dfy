/**
 YAML documents in the two forms the profiler reads them: the node tree that
 `yaml.compose` returns (with the 0-based line of every node) and the plain
 value that `yaml.safe_load` constructs from it. Mapping keys of constructed
 values are strings.
 */
module Yaml {
  import opened Wrappers
  import opened Dicts

  /** A value as `yaml.safe_load` builds it. */
  datatype Value =
    | Null
    | Bool(b: bool)
    | Int(i: int)
    | Str(s: string)
    | List(items: seq<Value>)
    | Map(entries: Dict<Value>)

  /** Python truthiness (`if v:`). */
  predicate Truthy(v: Value)
  {
    match v
    case Null => false
    case Bool(b) => b
    case Int(i) => i != 0
    case Str(s) => s != ""
    case List(items) => items != []
    case Map(entries) => entries != []
  }

  /** `v.get(k)` when `v` is a mapping, `None` for any other value. */
  function Field(v: Value, k: string): (r: Option<Value>)
    ensures r.Some? <==> v.Map? && k in Keys(v.entries)
  {
    if v.Map? then Get(v.entries, k) else None
  }

  /** Every mapping inside `v` has distinct keys, as every Python dict does. */
  predicate WellFormed(v: Value)
  {
    match v
    case List(items) => forall i :: 0 <= i < |items| ==> WellFormed(items[i])
    case Map(entries) =>
      DistinctKeys(entries) && forall i :: 0 <= i < |entries| ==> WellFormed(entries[i].val)
    case _ => true
  }

  /** What the resolver makes of a plain or quoted scalar. */
  datatype Scalar = SNull | SBool(b: bool) | SInt(i: int) | SStr(s: string)

  function ScalarValue(s: Scalar): Value
  {
    match s
    case SNull => Null
    case SBool(b) => Bool(b)
    case SInt(i) => Int(i)
    case SStr(t) => Str(t)
  }

  /**
   A node of the composed tree: `text` is a scalar's source text, `resolved`
   what it constructs to, and `line` the 0-based line of the node's start mark.
   */
  datatype Node =
    | ScalarNode(text: string, resolved: Scalar, line: nat)
    | SeqNode(items: seq<Node>, line: nat)
    | MapNode(pairs: seq<Pair>, line: nat)

  datatype Pair = Pair(key: Node, value: Node)

  /** Every mapping key inside `n` is a scalar, so every key can be hashed. */
  predicate ScalarKeys(n: Node)
  {
    match n
    case ScalarNode(_, _, _) => true
    case SeqNode(items, _) => forall i :: 0 <= i < |items| ==> ScalarKeys(items[i])
    case MapNode(pairs, _) =>
      forall i :: 0 <= i < |pairs| ==> pairs[i].key.ScalarNode? && ScalarKeys(pairs[i].value)
  }

  /**
   `yaml.safe_load` on a composed tree: a scalar becomes its resolved value,
   a sequence a list, a mapping a dict whose later duplicate keys overwrite
   earlier ones. A key that is not a scalar cannot be hashed, and the
   constructor fails with that key's line.
   */
  function Construct(n: Node): (r: Result<Value, nat>)
    ensures r.Ok? <==> ScalarKeys(n)
    ensures r.Ok? ==> WellFormed(r.value)
    ensures r.Ok? && n.ScalarNode? ==> r.value == ScalarValue(n.resolved)
    ensures r.Ok? && n.SeqNode? ==> r.value.List? && |r.value.items| == |n.items|
    ensures r.Ok? && n.MapNode? ==> r.value.Map?
    decreases n, 1
  {
    match n
    case ScalarNode(_, resolved, _) => Ok(ScalarValue(resolved))
    case SeqNode(items, _) =>
      var vs :- ConstructItems(n, 0);
      Ok(List(vs))
    case MapNode(pairs, _) =>
      var d :- ConstructPairs(n, 0, []);
      Ok(Map(d))
  }

  /** The items of a sequence node from position `from` on. */
  function ConstructItems(n: Node, from: nat): (r: Result<seq<Value>, nat>)
    requires n.SeqNode? && from <= |n.items|
    ensures r.Ok? <==> forall i :: from <= i < |n.items| ==> ScalarKeys(n.items[i])
    ensures r.Ok? ==> |r.value| == |n.items| - from
    ensures r.Ok? ==> forall i :: 0 <= i < |r.value| ==> WellFormed(r.value[i])
    decreases n, 0, |n.items| - from
  {
    if from == |n.items| then Ok([])
    else
      var v :- Construct(n.items[from]);
      var rest :- ConstructItems(n, from + 1);
      Ok([v] + rest)
  }

  /** The pairs of a mapping node from position `from` on, added to `acc`. */
  function ConstructPairs(n: Node, from: nat, acc: Dict<Value>): (r: Result<Dict<Value>, nat>)
    requires n.MapNode? && from <= |n.pairs|
    requires WellFormedEntries(acc)
    ensures r.Ok? <==> PairsOk(n.pairs, from)
    ensures r.Ok? ==> WellFormedEntries(r.value)
    decreases n, 0, |n.pairs| - from
  {
    if from == |n.pairs| then Ok(acc)
    else
      var p := n.pairs[from];
      PairsOkStep(n.pairs, from);
      if !p.key.ScalarNode? then Err(p.key.line)
      else
        match Construct(p.value)
        case Err(line) => Err(line)
        case Ok(v) =>
          PutWellFormed(acc, p.key.text, v);
          ConstructPairs(n, from + 1, Put(acc, p.key.text, v))
  }

  /** A pair whose key is a scalar and whose value has only scalar keys. */
  predicate PairOk(p: Pair)
  {
    p.key.ScalarNode? && ScalarKeys(p.value)
  }

  /** The pairs from position `from` on are all fine. */
  predicate PairsOk(ps: seq<Pair>, from: nat)
  {
    forall i :: from <= i < |ps| ==> PairOk(ps[i])
  }

  lemma PairsOkStep(ps: seq<Pair>, from: nat)
    requires from < |ps|
    ensures PairsOk(ps, from) <==> PairOk(ps[from]) && PairsOk(ps, from + 1)
  {
  }

  /** The entries of a well-formed mapping. */
  predicate WellFormedEntries(d: Dict<Value>)
  {
    DistinctKeys(d) && forall i :: 0 <= i < |d| ==> WellFormed(d[i].val)
  }

  lemma PutWellFormed(d: Dict<Value>, k: string, v: Value)
    requires WellFormedEntries(d) && WellFormed(v)
    ensures WellFormedEntries(Put(d, k, v))
  {
    var r := Put(d, k, v);
    forall i | 0 <= i < |r| ensures WellFormed(r[i].val) {
      var k' := r[i].key;
      GetAt(r, i);
      if k' != k {
        assert Entry(k', r[i].val) in d;
      }
    }
  }
}
