/**
 * The model: section name ("p", "g", ...) to rule type to its store. Every
 * operation looks up the store of (section, rule type) first and fails with
 * the lookup's error when there is none.
 */
module Policy {
  import opened Wrappers
  import opened Strconv
  import opened RuleKeys
  import opened Selection
  import opened Priority
  import opened Batch
  import opened Updates
  import opened Assertions

  type Model = map<string, map<string, Assertion>>

  datatype Error =
    | MissingSection(sec: string)
    | MissingDefinition(sec: string, ptype: string)
    | InvalidRuleSize(expected: int, got: int)

  /** The store of (sec, ptype); the lookup's own source is not part of this model. */
  function GetAssertion(model: Model, sec: string, ptype: string): Result<Assertion, Error>
  {
    if sec !in model then Failure(MissingSection(sec))
    else if ptype !in model[sec] then Failure(MissingDefinition(sec, ptype))
    else Success(model[sec][ptype])
  }

  /** Whether (sec, ptype) has a store. */
  predicate Defined(model: Model, sec: string, ptype: string)
  {
    sec in model && ptype in model[sec]
  }

  /** The objects an operation on (sec, ptype) reads and changes. */
  function Footprint(model: Model, sec: string, ptype: string): set<object>
  {
    if sec in model && ptype in model[sec] then {model[sec][ptype]} else {}
  }

  /** All stores of one section. */
  function SectionStores(model: Model, sec: string): set<Assertion>
  {
    if sec in model then model[sec].Values else {}
  }

  /** The failure of a lookup, as the error an operation returns. */
  function LookupError(model: Model, sec: string, ptype: string): Option<Error>
  {
    match GetAssertion(model, sec, ptype)
    case Failure(e) => Some(e)
    case Success(_) => None
  }

  // Queries.

  function GetPolicy(model: Model, sec: string, ptype: string): (r: Result<seq<Rule>, Error>)
    reads Footprint(model, sec, ptype)
    ensures r.Failure? <==> LookupError(model, sec, ptype).Some?
    ensures r.Failure? ==> r.error == LookupError(model, sec, ptype).value
    ensures r.Success? ==> r.value == model[sec][ptype].Policy
  {
    match GetAssertion(model, sec, ptype)
    case Failure(e) => Failure(e)
    case Success(a) => Success(a.Policy)
  }

  /** The plain lookup: the lookup error, or whether the rule's key is in the index. */
  function HasPolicy(model: Model, sec: string, ptype: string, rule: Rule): (r: Result<bool, Error>)
    reads Footprint(model, sec, ptype)
    ensures r.Failure? <==> LookupError(model, sec, ptype).Some?
    ensures r.Failure? ==> r.error == LookupError(model, sec, ptype).value
    ensures r.Success? ==> (r.value <==> Key(rule) in model[sec][ptype].PolicyMap)
    ensures r.Success? && model[sec][ptype].Valid() ==>
              (r.value <==> Key(rule) in KeySet(model[sec][ptype].Policy))
  {
    match GetAssertion(model, sec, ptype)
    case Failure(e) => Failure(e)
    case Success(a) => Success(a.HasPolicy(rule))
  }

  /** What the arity-checked lookup accepts: exact length in "p", at least the declared length in "g". */
  predicate ArityOk(sec: string, size: int, tokens: int)
  {
    && (sec == "p" ==> size == tokens)
    && (sec == "g" ==> size >= tokens)
  }

  /**
   * The arity-checked lookup answers exactly when the store exists and the
   * arity is accepted, and then it answers as the plain lookup does; a rule
   * of the wrong size reports the declared and the actual size.
   */
  function HasPolicyEx(model: Model, sec: string, ptype: string, rule: Rule): (r: Result<bool, Error>)
    reads Footprint(model, sec, ptype)
    ensures r.Success? <==> sec in model && ptype in model[sec] && ArityOk(sec, |rule|, |model[sec][ptype].Tokens|)
    ensures r.Success? ==> r == HasPolicy(model, sec, ptype, rule)
    ensures !Defined(model, sec, ptype) ==> r.Failure? && r.error == LookupError(model, sec, ptype).value
    ensures Defined(model, sec, ptype) && !ArityOk(sec, |rule|, |model[sec][ptype].Tokens|) ==>
              r == Failure(InvalidRuleSize(|model[sec][ptype].Tokens|, |rule|))
    ensures sec != "p" && sec != "g" ==> r == HasPolicy(model, sec, ptype, rule)
  {
    match GetAssertion(model, sec, ptype)
    case Failure(e) => Failure(e)
    case Success(a) =>
      if sec == "p" && |rule| != |a.Tokens| then Failure(InvalidRuleSize(|a.Tokens|, |rule|))
      else if sec == "g" && |rule| < |a.Tokens| then Failure(InvalidRuleSize(|a.Tokens|, |rule|))
      else HasPolicy(model, sec, ptype, rule)
  }

  /** For an indexed store of well-formed rules, the plain lookup answers rule membership. */
  lemma HasPolicyMeaning(model: Model, sec: string, ptype: string, rule: Rule)
    requires sec in model && ptype in model[sec] && model[sec][ptype].Valid()
    requires WellFormed(rule) && forall i :: 0 <= i < |model[sec][ptype].Policy| ==> WellFormed(model[sec][ptype].Policy[i])
    ensures HasPolicy(model, sec, ptype, rule) == Success(rule in model[sec][ptype].Policy)
  {
    model[sec][ptype].HasPolicyMembership(rule);
  }

  /** Whether any of the rules is stored; no rules means no lookup at all. */
  method HasPolicies(model: Model, sec: string, ptype: string, rules: seq<Rule>) returns (r: Result<bool, Error>)
    ensures |rules| == 0 ==> r == Success(false)
    ensures |rules| > 0 ==> (r.Failure? <==> LookupError(model, sec, ptype).Some?)
    ensures r.Failure? ==> r.error == LookupError(model, sec, ptype).value
    ensures r.Success? && |rules| > 0 ==>
              (r.value <==> exists i :: 0 <= i < |rules| && Key(rules[i]) in model[sec][ptype].PolicyMap)
  {
    for i := 0 to |rules|
      invariant i > 0 ==> LookupError(model, sec, ptype).None?
      invariant i > 0 ==> forall j :: 0 <= j < i ==> Key(rules[j]) !in model[sec][ptype].PolicyMap
    {
      var ok := HasPolicy(model, sec, ptype, rules[i]);
      if ok.Failure? {
        return Failure(ok.error);
      }
      if ok.value {
        return Success(true);
      }
    }
    return Success(false);
  }

  method GetFilteredPolicy(model: Model, sec: string, ptype: string, fieldIndex: int, fieldValues: seq<string>)
    returns (r: Result<seq<Rule>, Error>)
    requires sec in model && ptype in model[sec] ==>
      forall j :: 0 <= j < |model[sec][ptype].Policy| ==> MatchSafe(model[sec][ptype].Policy[j], fieldIndex, fieldValues)
    ensures r.Failure? <==> LookupError(model, sec, ptype).Some?
    ensures r.Failure? ==> r.error == LookupError(model, sec, ptype).value
    ensures r.Success? ==> r.value == Keep(model[sec][ptype].Policy, Matching(fieldIndex, fieldValues))
  {
    var ast := GetAssertion(model, sec, ptype);
    if ast.Failure? {
      return Failure(ast.error);
    }
    var res := ast.value.GetFilteredPolicy(fieldIndex, fieldValues);
    return Success(res);
  }

  method GetValuesForFieldInPolicy(model: Model, sec: string, ptype: string, fieldIndex: int)
    returns (r: Result<seq<string>, Error>)
    requires Defined(model, sec, ptype) && |model[sec][ptype].Policy| > 0 ==> 0 <= fieldIndex
    requires Defined(model, sec, ptype) ==>
      forall j :: 0 <= j < |model[sec][ptype].Policy| ==> fieldIndex < |model[sec][ptype].Policy[j]|
    ensures r.Failure? <==> LookupError(model, sec, ptype).Some?
    ensures r.Failure? ==> r.error == LookupError(model, sec, ptype).value
    ensures r.Success? ==> forall i, j :: 0 <= i < j < |r.value| ==> r.value[i] != r.value[j]
    ensures r.Success? ==> forall x :: x in r.value <==>
      exists j :: 0 <= j < |model[sec][ptype].Policy| && model[sec][ptype].Policy[j][fieldIndex] == x
  {
    var ast := GetAssertion(model, sec, ptype);
    if ast.Failure? {
      return Failure(ast.error);
    }
    var values := ast.value.GetValuesForFieldInPolicy(fieldIndex);
    return Success(values);
  }

  // Changes.

  /** Adds one rule to the store of (sec, ptype), in priority order in section "p". */
  method AddPolicy(model: Model, sec: string, ptype: string, rule: Rule) returns (err: Option<Error>)
    requires Defined(model, sec, ptype) ==>
      Insertable(model[sec][ptype].Policy, rule, model[sec][ptype].PriorityColumn(sec), Atoi)
    modifies Footprint(model, sec, ptype)
    ensures err == LookupError(model, sec, ptype)
    ensures err.None? ==> var a := model[sec][ptype];
      && a.Policy == PriorityInsert(old(a.Policy), rule, a.PriorityColumn(sec), Atoi)
      && Key(rule) in a.PolicyMap
      && (old(a.Valid()) && Key(rule) !in old(a.PolicyMap) ==> a.Valid())
  {
    var ast := GetAssertion(model, sec, ptype);
    if ast.Failure? {
      return Some(ast.error);
    }
    ast.value.AddPolicy(sec, rule);
    return None;
  }

  /** Adds the rules not stored yet and reports them. */
  method AddPoliciesWithAffected(model: Model, sec: string, ptype: string, rules: seq<Rule>)
    returns (r: Result<seq<Rule>, Error>)
    requires Defined(model, sec, ptype) ==> var a := model[sec][ptype];
      && a.Valid()
      && HasColumn(a.Policy, a.PriorityColumn(sec)) && HasColumn(rules, a.PriorityColumn(sec))
    modifies Footprint(model, sec, ptype)
    ensures r.Failure? <==> LookupError(model, sec, ptype).Some?
    ensures r.Failure? ==> r.error == LookupError(model, sec, ptype).value
    ensures r.Success? ==> var a := model[sec][ptype];
      && a.Valid()
      && (a.Policy, r.value) == AddAll(old(a.Policy), rules, a.PriorityColumn(sec), Atoi)
  {
    var ast := GetAssertion(model, sec, ptype);
    if ast.Failure? {
      return Failure(ast.error);
    }
    var affected := ast.value.AddPoliciesWithAffected(sec, rules);
    return Success(affected);
  }

  /** The batch add without the report of what it added. */
  method AddPolicies(model: Model, sec: string, ptype: string, rules: seq<Rule>) returns (err: Option<Error>)
    requires Defined(model, sec, ptype) ==> var a := model[sec][ptype];
      && a.Valid()
      && HasColumn(a.Policy, a.PriorityColumn(sec)) && HasColumn(rules, a.PriorityColumn(sec))
    modifies Footprint(model, sec, ptype)
    ensures err == LookupError(model, sec, ptype)
    ensures err.None? ==> var a := model[sec][ptype];
      && a.Valid()
      && a.Policy == AddAll(old(a.Policy), rules, a.PriorityColumn(sec), Atoi).0
  {
    var r := AddPoliciesWithAffected(model, sec, ptype, rules);
    if r.Failure? {
      return Some(r.error);
    }
    return None;
  }

  /** Removes one rule by moving the last rule into its slot. */
  method RemovePolicy(model: Model, sec: string, ptype: string, rule: Rule) returns (r: Result<bool, Error>)
    requires Defined(model, sec, ptype) ==> model[sec][ptype].Valid()
    modifies Footprint(model, sec, ptype)
    ensures r.Failure? <==> LookupError(model, sec, ptype).Some?
    ensures r.Failure? ==> r.error == LookupError(model, sec, ptype).value
    ensures r.Success? ==> var a := model[sec][ptype];
      && a.Valid()
      && (r.value <==> Key(rule) in old(a.PolicyMap))
      && (!r.value ==> a.Policy == old(a.Policy) && a.PolicyMap == old(a.PolicyMap))
      && (r.value ==> a.Policy == SwapRemove(old(a.Policy), old(a.PolicyMap)[Key(rule)]))
  {
    var ast := GetAssertion(model, sec, ptype);
    if ast.Failure? {
      return Failure(ast.error);
    }
    var ok := ast.value.RemovePolicy(rule);
    return Success(ok);
  }

  /** Removes the stored rules among `rules`, closing the gaps, and reports them. */
  method RemovePoliciesWithAffected(model: Model, sec: string, ptype: string, rules: seq<Rule>)
    returns (r: Result<seq<Rule>, Error>)
    requires Defined(model, sec, ptype) ==> model[sec][ptype].Valid()
    modifies Footprint(model, sec, ptype)
    ensures r.Failure? <==> LookupError(model, sec, ptype).Some?
    ensures r.Failure? ==> r.error == LookupError(model, sec, ptype).value
    ensures r.Success? ==> var a := model[sec][ptype];
      && a.Valid()
      && (a.Policy, r.value) == RemoveAll(old(a.Policy), rules)
  {
    var ast := GetAssertion(model, sec, ptype);
    if ast.Failure? {
      return Failure(ast.error);
    }
    var affected := ast.value.RemovePoliciesWithAffected(rules);
    return Success(affected);
  }

  /** The batch remove, reporting whether it removed anything. */
  method RemovePolicies(model: Model, sec: string, ptype: string, rules: seq<Rule>) returns (r: Result<bool, Error>)
    requires Defined(model, sec, ptype) ==> model[sec][ptype].Valid()
    modifies Footprint(model, sec, ptype)
    ensures r.Failure? <==> LookupError(model, sec, ptype).Some?
    ensures r.Failure? ==> r.error == LookupError(model, sec, ptype).value
    ensures r.Success? ==> var a := model[sec][ptype];
      && a.Valid()
      && a.Policy == Without(old(a.Policy), KeySet(rules))
      && (r.value <==> exists i :: 0 <= i < |rules| && Key(rules[i]) in KeySet(old(a.Policy)))
  {
    ghost var p0 := if Defined(model, sec, ptype) then model[sec][ptype].Policy else [];
    var affected := RemovePoliciesWithAffected(model, sec, ptype, rules);
    if affected.Failure? {
      return Failure(affected.error);
    }
    RemoveAllSurvivors(p0, rules);
    RemoveAllReport(p0, rules);
    if |affected.value| != 0 {
      ghost var k :| k in KeySet(rules) * KeySet(p0);
      ghost var i :| 0 <= i < |rules| && Key(rules[i]) == k;
    }
    forall i | 0 <= i < |rules| && Key(rules[i]) in KeySet(p0) ensures |affected.value| != 0 {
      assert Key(rules[i]) in KeySet(rules) * KeySet(p0);
    }
    return Success(|affected.value| != 0);
  }

  /** Removes the rules the filter matches, reporting whether any were and which. */
  method RemoveFilteredPolicy(model: Model, sec: string, ptype: string, fieldIndex: int, fieldValues: seq<string>)
    returns (r: Result<(bool, seq<Rule>), Error>)
    requires Defined(model, sec, ptype) ==>
      forall j :: 0 <= j < |model[sec][ptype].Policy| ==> MatchSafe(model[sec][ptype].Policy[j], fieldIndex, fieldValues)
    modifies Footprint(model, sec, ptype)
    ensures r.Failure? <==> LookupError(model, sec, ptype).Some?
    ensures r.Failure? ==> r.error == LookupError(model, sec, ptype).value
    ensures r.Success? ==> var a := model[sec][ptype];
      && r.value.1 == Keep(old(a.Policy), Matching(fieldIndex, fieldValues))
      && a.Policy == Keep(old(a.Policy), NotMatching(fieldIndex, fieldValues))
      && (r.value.0 <==> |r.value.1| > 0)
      && (DistinctKeys(old(a.Policy)) ==> a.Valid())
  {
    var ast := GetAssertion(model, sec, ptype);
    if ast.Failure? {
      return Failure(ast.error);
    }
    var res, effects := ast.value.RemoveFilteredPolicy(fieldIndex, fieldValues);
    return Success((res, effects));
  }

  /** Replaces one stored rule in its slot. */
  method UpdatePolicy(model: Model, sec: string, ptype: string, oldRule: Rule, newRule: Rule)
    returns (r: Result<bool, Error>)
    requires Defined(model, sec, ptype) ==> model[sec][ptype].Valid()
    modifies Footprint(model, sec, ptype)
    ensures r.Failure? <==> LookupError(model, sec, ptype).Some?
    ensures r.Failure? ==> r.error == LookupError(model, sec, ptype).value
    ensures r.Success? ==> var a := model[sec][ptype];
      && (r.value <==> Key(oldRule) in old(a.PolicyMap))
      && (!r.value ==> a.Policy == old(a.Policy) && a.PolicyMap == old(a.PolicyMap))
      && (r.value ==> var index := old(a.PolicyMap)[Key(oldRule)];
            && a.Policy == old(a.Policy)[index := newRule]
            && a.PolicyMap == (old(a.PolicyMap) - {Key(oldRule)})[Key(newRule) := index])
      && (Key(newRule) == Key(oldRule) || Key(newRule) !in old(a.PolicyMap) ==> a.Valid())
  {
    var ast := GetAssertion(model, sec, ptype);
    if ast.Failure? {
      return Failure(ast.error);
    }
    var ok := ast.value.UpdatePolicy(oldRule, newRule);
    return Success(ok);
  }

  /** Replaces stored rules pairwise, all or none. */
  method UpdatePolicies(model: Model, sec: string, ptype: string, oldRules: seq<Rule>, newRules: seq<Rule>)
    returns (r: Result<bool, Error>)
    requires Defined(model, sec, ptype) ==> model[sec][ptype].Valid() && |newRules| >= |oldRules|
    modifies Footprint(model, sec, ptype)
    ensures r.Failure? <==> LookupError(model, sec, ptype).Some?
    ensures r.Failure? ==> r.error == LookupError(model, sec, ptype).value
    ensures r.Success? ==> |model[sec][ptype].Policy| == |old(model[sec][ptype].Policy)|
    ensures r.Success? ==>
      (r.value <==> Reaches(old(model[sec][ptype].Policy), old(model[sec][ptype].PolicyMap), oldRules, newRules, |oldRules|))
    ensures r.Success? && r.value ==>
      var a := model[sec][ptype];
      var run := Run(old(a.Policy), old(a.PolicyMap), oldRules, newRules, |oldRules|);
      a.Policy == run.0 && a.PolicyMap == run.1
    ensures r.Success? && !r.value ==>
      var a := model[sec][ptype];
      exists n ::
        && 0 <= n < |oldRules| && Reaches(old(a.Policy), old(a.PolicyMap), oldRules, newRules, n)
        && Key(oldRules[n]) !in Run(old(a.Policy), old(a.PolicyMap), oldRules, newRules, n).1
        && a.Policy == Restored(Run(old(a.Policy), old(a.PolicyMap), oldRules, newRules, n).0,
                                Run(old(a.Policy), old(a.PolicyMap), oldRules, newRules, n).2, oldRules)
    ensures r.Success? && BatchUpdateSafe(old(model[sec][ptype].Policy), old(model[sec][ptype].PolicyMap), oldRules, newRules) ==>
      var a := model[sec][ptype];
      && (r.value <==> forall j :: 0 <= j < |oldRules| ==> Key(oldRules[j]) in old(a.PolicyMap))
      && (!r.value ==> a.Policy == old(a.Policy) && a.PolicyMap == old(a.PolicyMap))
      && (r.value ==> a.Valid())
      && (r.value ==> forall j :: 0 <= j < |oldRules| ==>
            0 <= old(a.PolicyMap)[Key(oldRules[j])] < |a.Policy| && a.Policy[old(a.PolicyMap)[Key(oldRules[j])]] == newRules[j])
      && (r.value ==> forall i :: 0 <= i < |a.Policy| && Key(old(a.Policy)[i]) !in KeySet(oldRules) ==>
            a.Policy[i] == old(a.Policy)[i])
  {
    var ast := GetAssertion(model, sec, ptype);
    if ast.Failure? {
      return Failure(ast.error);
    }
    var ok := ast.value.UpdatePolicies(oldRules, newRules);
    return Success(ok);
  }

  /** Empties every store of sections "p" and "g"; the stores are visited in no fixed order. */
  method ClearPolicy(model: Model)
    modifies SectionStores(model, "p") + SectionStores(model, "g")
    ensures forall a :: a in SectionStores(model, "p") + SectionStores(model, "g") ==>
      a.Policy == [] && a.PolicyMap == map[] && a.Valid()
  {
    var stores := SectionStores(model, "p") + SectionStores(model, "g");
    var todo := stores;
    while todo != {}
      invariant todo <= stores
      invariant forall a :: a in stores - todo ==> a.Policy == [] && a.PolicyMap == map[] && a.Valid()
      decreases todo
    {
      var a :| a in todo;
      a.Clear();
      todo := todo - {a};
    }
  }
}
