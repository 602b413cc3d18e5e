/**
 What the six rule modules share: the key paths they report at, the
 rendering of name lists inside messages, and the two loop shapes they
 are all built from — "report the selected positions, in order" and
 "concatenate what each entry contributes".
 */
module RuleKit {
  import opened Wrappers
  import opened Strings
  import opened Dicts
  import opened Errors
  import opened Profile

  /** Every rule module reports at `profile.elements...`. */
  const ElementsPath: string := "profile.elements"

  function ElemPath(elemName: string): string
  {
    ElementsPath + "." + elemName
  }

  /** `f"{path}.{key}"`. */
  function Dot(path: string, key: string): string
  {
    path + "." + key
  }

  /** `f"{path}[{i}]"`. */
  function At(path: string, i: nat): string
  {
    path + "[" + NatToString(i) + "]"
  }

  /** `repr` of a list of strings, as interpolated into messages. */
  function PyList(xs: seq<string>): string
  {
    "[" + Join(seq(|xs|, i requires 0 <= i < |xs| => "'" + xs[i] + "'"), ", ") + "]"
  }

  /** Different positions give different `path[i]` keys. */
  lemma AtInjective(path: string, i: nat, j: nat)
    requires At(path, i) == At(path, j)
    ensures i == j
  {
    var a := At(path, i);
    var b := At(path, j);
    assert a[|path| + 1..|a| - 1] == NatToString(i);
    assert b[|path| + 1..|b| - 1] == NatToString(j);
    DigitsRoundTrip(i);
    DigitsRoundTrip(j);
  }

  /** The keys of a profile mapping as a set. */
  function KeySet<V>(d: Dict<V>): (r: set<string>)
    ensures forall k :: k in r <==> k in Keys(d)
  {
    set k | k in Keys(d)
  }

  /**
   The reports `mk(i, xs[i])` for the positions `keep` selects, in
   increasing position order.
   */
  function Select<T, R(!new)>(xs: seq<T>, keep: (nat, T) -> bool, mk: (nat, T) -> R): (r: seq<R>)
    ensures |r| <= |xs|
    ensures forall y :: y in r <==> exists i :: 0 <= i < |xs| && keep(i, xs[i]) && y == mk(i, xs[i])
    ensures (forall i :: 0 <= i < |xs| ==> keep(i, xs[i])) ==> |r| == |xs|
    ensures (forall i :: 0 <= i < |xs| ==> !keep(i, xs[i])) ==> r == []
  {
    SelectFrom(xs, keep, mk, 0)
  }

  function SelectFrom<T, R(!new)>(xs: seq<T>, keep: (nat, T) -> bool, mk: (nat, T) -> R, from: nat): (r: seq<R>)
    requires from <= |xs|
    ensures |r| <= |xs| - from
    ensures forall y :: y in r <==> exists i :: from <= i < |xs| && keep(i, xs[i]) && y == mk(i, xs[i])
    ensures (forall i :: from <= i < |xs| ==> keep(i, xs[i])) ==> |r| == |xs| - from
    ensures (forall i :: from <= i < |xs| ==> !keep(i, xs[i])) ==> r == []
    decreases |xs| - from
  {
    if from == |xs| then []
    else
      var rest := SelectFrom(xs, keep, mk, from + 1);
      if keep(from, xs[from]) then [mk(from, xs[from])] + rest else rest
  }

  /** When `keep` can hold at position `j` only, at most one report is made. */
  lemma {:induction false} SelectFromAtMostOne<T, R(!new)>(xs: seq<T>, keep: (nat, T) -> bool, mk: (nat, T) -> R, from: nat, j: nat)
    requires from <= |xs|
    requires forall i :: from <= i < |xs| && i != j ==> !keep(i, xs[i])
    ensures |SelectFrom(xs, keep, mk, from)| <= if from <= j then 1 else 0
    decreases |xs| - from
  {
    if from < |xs| {
      SelectFromAtMostOne(xs, keep, mk, from + 1, j);
    }
  }

  /** The concatenation of what every position contributes, in order. */
  function Gather<T, R(!new)>(xs: seq<T>, f: (nat, T) -> seq<R>): (r: seq<R>)
    ensures forall y :: y in r <==> exists i :: 0 <= i < |xs| && y in f(i, xs[i])
    ensures (forall i :: 0 <= i < |xs| ==> f(i, xs[i]) == []) ==> r == []
  {
    GatherFrom(xs, f, 0)
  }

  function GatherFrom<T, R(!new)>(xs: seq<T>, f: (nat, T) -> seq<R>, from: nat): (r: seq<R>)
    requires from <= |xs|
    ensures forall y :: y in r <==> exists i :: from <= i < |xs| && y in f(i, xs[i])
    ensures (forall i :: from <= i < |xs| ==> f(i, xs[i]) == []) ==> r == []
    decreases |xs| - from
  {
    if from == |xs| then [] else f(from, xs[from]) + GatherFrom(xs, f, from + 1)
  }

  /**
   `Gather` for contributions that may raise: the first position whose
   contribution raises aborts the whole loop.
   */
  function GatherOpt<T, R(!new)>(xs: seq<T>, f: (nat, T) -> Option<seq<R>>, from: nat): (r: Option<seq<R>>)
    requires from <= |xs|
    ensures r.None? <==> exists i :: from <= i < |xs| && f(i, xs[i]).None?
    ensures r.Some? ==> forall y :: y in r.value <==> exists i :: from <= i < |xs| && y in f(i, xs[i]).value
    decreases |xs| - from
  {
    if from == |xs| then Some([])
    else
      match f(from, xs[from])
      case None => None
      case Some(head) =>
        match GatherOpt(xs, f, from + 1)
        case None => None
        case Some(rest) => Some(head + rest)
  }

  /**
   One report per name of `missing`, in ascending name order — the shape
   of `for name in sorted(missing): errors.append(...)`.
   */
  function SortedReports<R(!new)>(missing: set<string>, mk: string -> R): (r: seq<R>)
    ensures |r| == |missing|
    ensures forall y :: y in r <==> exists c :: c in missing && y == mk(c)
  {
    var m := SortSet(missing);
    var r := seq(|m|, i requires 0 <= i < |m| => mk(m[i]));
    assert forall i :: 0 <= i < |r| ==> r[i] == mk(m[i]);
    r
  }

  /** The reports follow the names in ascending order. */
  lemma SortedReportsOrder<R(!new)>(missing: set<string>, mk: string -> R)
    ensures forall i :: 0 <= i < |SortedReports(missing, mk)| ==> SortedReports(missing, mk)[i] == mk(SortSet(missing)[i])
  {
  }

  /** Every report in `es` carries one of the rule ids `ids` and one of the severities `sevs`. */
  predicate Tagged(es: seq<ValidationError>, ids: set<string>, sevs: set<Severity>)
  {
    forall i :: 0 <= i < |es| ==> es[i].ruleId in ids && es[i].severity in sevs
  }

  lemma TaggedConcat(a: seq<ValidationError>, b: seq<ValidationError>, ids: set<string>, sevs: set<Severity>)
    requires Tagged(a, ids, sevs) && Tagged(b, ids, sevs)
    ensures Tagged(a + b, ids, sevs)
  {
    forall i | 0 <= i < |a + b| ensures (a + b)[i].ruleId in ids && (a + b)[i].severity in sevs {
      if i >= |a| {
        assert (a + b)[i] == b[i - |a|];
      }
    }
  }

  /** What every position contributes is tagged, so the concatenation is. */
  lemma {:induction false} TaggedGather<T>(xs: seq<T>, f: (nat, T) -> seq<ValidationError>, ids: set<string>, sevs: set<Severity>, from: nat)
    requires from <= |xs|
    requires forall i :: from <= i < |xs| ==> Tagged(f(i, xs[i]), ids, sevs)
    ensures Tagged(GatherFrom(xs, f, from), ids, sevs)
    decreases |xs| - from
  {
    if from < |xs| {
      TaggedGather<T>(xs, f, ids, sevs, from + 1);
      TaggedConcat(f(from, xs[from]), GatherFrom(xs, f, from + 1), ids, sevs);
    }
  }

  lemma {:induction false} TaggedGatherOpt<T>(xs: seq<T>, f: (nat, T) -> Option<seq<ValidationError>>, ids: set<string>, sevs: set<Severity>, from: nat)
    requires from <= |xs|
    requires forall i :: from <= i < |xs| && f(i, xs[i]).Some? ==> Tagged(f(i, xs[i]).value, ids, sevs)
    ensures GatherOpt(xs, f, from).Some? ==> Tagged(GatherOpt(xs, f, from).value, ids, sevs)
    decreases |xs| - from
  {
    if from < |xs| && f(from, xs[from]).Some? && GatherOpt(xs, f, from + 1).Some? {
      TaggedGatherOpt(xs, f, ids, sevs, from + 1);
      TaggedConcat(f(from, xs[from]).value, GatherOpt(xs, f, from + 1).value, ids, sevs);
    }
  }
}
