/**
 The validation pipeline (`validation/engine.py`): parse the profile;
 when that fails return the parse errors; otherwise run the six rule
 modules in their fixed order, drop the output of a module that raises,
 and remove repeated findings.
 */
module Engine {
  import opened Wrappers
  import opened Dicts
  import opened Dedup
  import opened Errors
  import opened Profile
  import opened Schema
  import opened YamlParser
  import opened RuleKit
  import RulesVocabulary
  import RulesStructure
  import RulesChoice
  import RulesDatatype
  import RulesIdentity
  import RulesStrictness

  /** The entries of `_RULE_MODULES`. */
  datatype RuleModule = Vocabulary | Structure | Choice | Datatype | Identity | Strictness

  /** `_RULE_MODULES`, in the order their findings are concatenated. */
  const RuleModules: seq<RuleModule> := [Vocabulary, Structure, Choice, Datatype, Identity, Strictness]

  /** `module.validate(profile, schema, line_index)`; `None` when it raises. */
  function RunModule(m: RuleModule, re: RulesDatatype.RegexOracle, p: ProfileDocument, s: AknSchema, ix: LineIndex): (r: Option<seq<ValidationError>>)
    ensures m != Strictness ==> r.Some?
    ensures m == Strictness ==> r == RulesStrictness.Validate(p, s, ix)
  {
    match m
    case Vocabulary => Some(RulesVocabulary.Validate(p, s, ix))
    case Structure => Some(RulesStructure.Validate(p, s, ix))
    case Choice => Some(RulesChoice.Validate(p, s, ix))
    case Datatype => Some(RulesDatatype.Validate(re, p, s, ix))
    case Identity => Some(RulesIdentity.Validate(p, s, ix))
    case Strictness => RulesStrictness.Validate(p, s, ix)
  }

  /** What every module of `_RULE_MODULES` returns, in order. */
  function Outputs(re: RulesDatatype.RegexOracle, p: ProfileDocument, s: AknSchema, ix: LineIndex): (r: seq<Option<seq<ValidationError>>>)
    ensures |r| == |RuleModules|
    ensures forall k :: 0 <= k < |r| ==> r[k] == RunModule(RuleModules[k], re, p, s, ix)
  {
    seq(|RuleModules|, k requires 0 <= k < |RuleModules| => RunModule(RuleModules[k], re, p, s, ix))
  }

  /**
   The loop over the modules' outputs: the findings of every module that
   returned, in module order; a module that raised adds nothing.
   */
  function Collect(outs: seq<Option<seq<ValidationError>>>): (r: seq<ValidationError>)
    ensures forall e :: e in r <==> exists k :: 0 <= k < |outs| && outs[k].Some? && e in outs[k].value
    ensures (forall k :: 0 <= k < |outs| ==> outs[k].None? || outs[k] == Some([])) ==> r == []
  {
    if outs == [] then []
    else
      var rest := Collect(outs[1..]);
      assert forall k :: 1 <= k < |outs| ==> outs[k] == outs[1..][k - 1];
      match outs[0]
      case None => rest
      case Some(es) => es + rest
  }

  /** The identity of a finding for de-duplication: rule id, path and message. */
  function FindingKey(e: ValidationError): (string, string, Message)
  {
    (e.ruleId, e.path, e.message)
  }

  /** `_deduplicate`: the first finding of every key, in order. */
  function Deduplicate(es: seq<ValidationError>): (r: seq<ValidationError>)
    ensures Subseq(r, es)
    ensures DistinctBy(r, FindingKey)
    ensures Dedup.KeySet(r, FindingKey) == Dedup.KeySet(es, FindingKey)
    ensures forall i :: 0 <= i < |r| ==> FirstWithKey(es, FindingKey, FindingKey(r[i])) == Some(r[i])
  {
    DedupBy(es, FindingKey)
  }

  /** De-duplicating twice is de-duplicating once. */
  lemma DeduplicateIdempotent(es: seq<ValidationError>)
    ensures Deduplicate(Deduplicate(es)) == Deduplicate(es)
  {
    DedupIdempotent(es, FindingKey);
  }

  /** The findings of a profile that parses: every module's, with repeated keys removed. */
  function Findings(outs: seq<Option<seq<ValidationError>>>): (r: seq<ValidationError>)
    ensures DistinctBy(r, FindingKey)
    ensures Subseq(r, Collect(outs))
  {
    Deduplicate(Collect(outs))
  }

  /** Every reported finding comes from a module that returned. */
  lemma FindingsSound(outs: seq<Option<seq<ValidationError>>>, e: ValidationError)
    requires e in Findings(outs)
    ensures exists k :: 0 <= k < |outs| && outs[k].Some? && e in outs[k].value
  {
    SubseqMembers(Findings(outs), Collect(outs));
  }

  /**
   Every finding of a module that returned is reported, possibly as an
   earlier finding with the same rule id, path and message.
   */
  lemma FindingsComplete(outs: seq<Option<seq<ValidationError>>>, k: nat, e: ValidationError)
    requires k < |outs| && outs[k].Some? && e in outs[k].value
    ensures exists e' :: e' in Findings(outs) && FindingKey(e') == FindingKey(e)
  {
    var all := Collect(outs);
    var r := Findings(outs);
    assert e in all;
    var i :| 0 <= i < |all| && all[i] == e;
    assert FindingKey(e) in Dedup.KeySet(all, FindingKey);
    var j :| 0 <= j < |r| && FindingKey(r[j]) == FindingKey(e);
    assert r[j] in r;
  }

  /**
   `validate_profile`: the parse errors alone when the profile does not
   parse, the rule modules' findings otherwise.
   */
  function ValidateProfile(doc: Document, s: AknSchema, re: RulesDatatype.RegexOracle): (r: seq<ValidationError>)
    ensures ParseProfile(doc).profile.None? ==> r == ParseProfile(doc).errors
    ensures ParseProfile(doc).profile.Some? ==>
      r == Findings(Outputs(re, ParseProfile(doc).profile.value, s, ParseProfile(doc).index))
  {
    var parsed := ParseProfile(doc);
    match parsed.profile
    case None => parsed.errors
    case Some(p) =>
      Findings(Outputs(re, p, s, parsed.index))
  }

  /** A module that raises is skipped: the loop continues with the next one. */
  lemma {:induction false} CollectSkipsRaised(outs: seq<Option<seq<ValidationError>>>, k: nat)
    requires k < |outs| && outs[k].None?
    ensures Collect(outs) == Collect(outs[..k]) + Collect(outs[k + 1..])
  {
    if k > 0 {
      CollectSkipsRaised(outs[1..], k - 1);
      assert outs[1..][..k - 1] == outs[..k][1..];
      assert outs[1..][k..] == outs[k + 1..];
    } else {
      assert outs[..0] == [];
      assert outs[1..] == outs[k + 1..];
    }
  }

  /** When the last of six modules raises, the findings are those of the first five. */
  lemma CollectSkipsLast(outs: seq<Option<seq<ValidationError>>>)
    requires |outs| == 6 && outs[5].None?
    ensures Collect(outs) == Collect(outs[..5])
  {
    CollectSkipsRaised(outs, 5);
    assert outs[6..] == [];
  }

  /** When the strictness module raises, the other five modules' findings are still reported. */
  lemma RaisingStrictnessIsSkipped(re: RulesDatatype.RegexOracle, p: ProfileDocument, s: AknSchema, ix: LineIndex)
    requires RulesStrictness.Validate(p, s, ix).None?
    ensures Collect(Outputs(re, p, s, ix)) == Collect(Outputs(re, p, s, ix)[..5])
  {
    CollectSkipsLast(Outputs(re, p, s, ix));
  }

  /** `profile: {}` is a valid profile with no findings. */
  lemma EmptyProfileIsClean(doc: Document, s: AknSchema, re: RulesDatatype.RegexOracle)
    requires SafeLoad(doc) == Ok(Yaml.Map([Entry("profile", Yaml.Map([]))]))
    ensures ValidateProfile(doc, s, re) == []
  {
    EmptyProfileParses(doc);
    var ix := ParseProfile(doc).index;
    var outs := Outputs(re, EmptyProfile, s, ix);
    forall k | 0 <= k < |outs| ensures outs[k] == Some([]) {
      EmptyProfileNoFindings(RuleModules[k], re, s, ix);
    }
    assert Collect(outs) == [];
  }

  /** No module finds anything in the empty profile. */
  lemma EmptyProfileNoFindings(m: RuleModule, re: RulesDatatype.RegexOracle, s: AknSchema, ix: LineIndex)
    ensures RunModule(m, re, EmptyProfile, s, ix) == Some([])
  {
    match m
    case Vocabulary => EmptyVocabulary(s, ix);
    case Structure => EmptyStructure(s, ix);
    case Choice => EmptyChoice(s, ix);
    case Datatype => EmptyDatatype(re, s, ix);
    case Identity => EmptyIdentity(s, ix);
    case Strictness => EmptyStrictness(s, ix);
  }

  lemma EmptyVocabulary(s: AknSchema, ix: LineIndex)
    ensures RulesVocabulary.Validate(EmptyProfile, s, ix) == []
  {
  }

  lemma EmptyStructure(s: AknSchema, ix: LineIndex)
    ensures RulesStructure.Validate(EmptyProfile, s, ix) == []
  {
  }

  lemma EmptyChoice(s: AknSchema, ix: LineIndex)
    ensures RulesChoice.Validate(EmptyProfile, s, ix) == []
  {
  }

  lemma EmptyDatatype(re: RulesDatatype.RegexOracle, s: AknSchema, ix: LineIndex)
    ensures RulesDatatype.Validate(re, EmptyProfile, s, ix) == []
  {
  }

  lemma EmptyIdentity(s: AknSchema, ix: LineIndex)
    ensures RulesIdentity.Validate(EmptyProfile, s, ix) == []
  {
  }

  lemma EmptyStrictness(s: AknSchema, ix: LineIndex)
    ensures RulesStrictness.Validate(EmptyProfile, s, ix) == Some([])
  {
    var p := EmptyProfile;
    var a := RulesStrictness.CheckRequiredChildren(p, s, ix);
    var b := RulesStrictness.CheckRequiredAttributes(p, s, ix);
    var c := RulesStrictness.CheckRequiredChain(p, s, ix);
    var e := RulesStrictness.CheckAttributeRequired(p, s, ix);
    var f := RulesStrictness.CheckUndeclaredChildren(p, s, ix);
    assert RulesStrictness.CheckChildCardinality(p, s, ix) == Some([]);
    assert a == [];
    assert b == [];
    assert c == [];
    assert e == [];
    assert f == [];
    assert RulesStrictness.Validate(p, s, ix) == Some(a + b + c + [] + e + f);
    assert a + b + c + [] + e + f == [];
  }
}
