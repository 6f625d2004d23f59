/**
 * The per-rule-type store: an ordered rule list and the index from each
 * rule's key to its position, updated in place by the store's algorithms.
 */
module Assertions {
  import opened Wrappers
  import opened Strconv
  import opened RuleKeys
  import opened Selection
  import opened Priority
  import opened Batch
  import opened Updates

  /** Some recorded slot of a non-empty map: Go leaves the order of a map's iteration unspecified. */
  method SomeRecordedSlot<K, V>(m: map<K, V>) returns (k: K)
    requires |m| > 0
    ensures k in m
  {
    k :| k in m;
  }

  /**
   * Keeps the first occurrence of each value. It stands for the repository's
   * duplicate-removal helper, of which only this promise is modelled: no
   * value twice, and the same values.
   */
  method RemoveDuplicates(s: seq<string>) returns (r: seq<string>)
    ensures forall i, j :: 0 <= i < j < |r| ==> r[i] != r[j]
    ensures forall x :: x in r <==> x in s
  {
    r := [];
    var seen: set<string> := {};
    for n := 0 to |s|
      invariant forall i, j :: 0 <= i < j < |r| ==> r[i] != r[j]
      invariant forall x :: x in r <==> x in s[..n]
      invariant forall x :: x in seen <==> x in r
    {
      assert s[..n + 1] == s[..n] + [s[n]];
      if s[n] !in seen {
        r := r + [s[n]];
        seen := seen + {s[n]};
      }
    }
    assert s[..|s|] == s;
  }

  /** The list during the shifting loop: `p` with one extra slot at `i`. */
  predicate Gapped(q: seq<Rule>, p: seq<Rule>, i: int)
  {
    && 0 <= i <= |p| && |q| == |p| + 1
    && q[..i] == p[..i] && q[i + 1..] == p[i..]
  }

  /** Copying the rule before the gap into it moves the gap one slot left. */
  lemma GappedShift(q: seq<Rule>, p: seq<Rule>, i: int)
    requires Gapped(q, p, i) && 0 < i
    ensures q[i - 1] == p[i - 1]
    ensures Gapped(q[i := q[i - 1]], p, i - 1)
  {
    assert q[..i][i - 1] == p[..i][i - 1];
    var q' := q[i := q[i - 1]];
    assert q'[..i - 1] == q[..i][..i - 1] == p[..i][..i - 1] == p[..i - 1];
    assert q'[i..] == [p[i - 1]] + q[i + 1..];
    assert p[i - 1..] == [p[i - 1]] + p[i..];
  }

  /** Filling the gap. */
  lemma GappedFill(q: seq<Rule>, p: seq<Rule>, i: int, rule: Rule)
    requires Gapped(q, p, i)
    ensures q[i := rule] == p[..i] + [rule] + p[i..]
  {
    var q' := q[i := rule];
    assert q' == q'[..i] + [rule] + q'[i + 1..];
    assert q'[..i] == q[..i] && q'[i + 1..] == q[i + 1..];
  }

  class Assertion {
    /** The declared field names of the rule type. */
    const Tokens: seq<string>
    /** Field name to column. */
    const FieldIndexMap: map<string, int>
    var Policy: seq<Rule>
    var PolicyMap: map<string, int>

    constructor (tokens: seq<string>, fieldIndexMap: map<string, int>)
      ensures Tokens == tokens && FieldIndexMap == fieldIndexMap
      ensures Policy == [] && PolicyMap == map[]
      ensures Valid()
    {
      Tokens := tokens;
      FieldIndexMap := fieldIndexMap;
      Policy := [];
      PolicyMap := map[];
    }

    /** The index invariant. */
    ghost predicate Valid()
      reads this
    {
      Indexed(Policy, PolicyMap)
    }

    /** The column that orders the rules: only in section "p", and only when a priority field is declared. */
    function PriorityColumn(sec: string): (col: Option<int>)
      ensures col.Some? <==> sec == "p" && PriorityIndex in FieldIndexMap
      ensures col.Some? ==> col.value == FieldIndexMap[PriorityIndex]
    {
      if sec == "p" && PriorityIndex in FieldIndexMap then Some(FieldIndexMap[PriorityIndex]) else None
    }

    /**
     * Appends the rule, then in section "p" with a priority field whose value
     * parses moves it back past every trailing rule of strictly greater
     * priority, adding one to each moved rule's index entry.
     */
    method AddPolicy(sec: string, rule: Rule)
      requires Insertable(Policy, rule, PriorityColumn(sec), Atoi)
      modifies this
      ensures Policy == PriorityInsert(old(Policy), rule, PriorityColumn(sec), Atoi)
      ensures Key(rule) in PolicyMap
      ensures old(Valid()) && Key(rule) !in old(PolicyMap) ==> Valid()
    {
      ghost var p0 := Policy;
      Append(rule);
      var col := PriorityColumn(sec);
      var parsed := if col.Some? then Atoi(rule[col.value]) else None;
      if parsed.Some? {
        ShiftIntoPlace(col.value, parsed.value, rule);
      }
      assert Policy == PriorityInsert(p0, rule, col, Atoi);
    }

    /**
     * The first step of the insertion: the rule goes to the end and its key
     * to the new last slot.
     */
    method Append(rule: Rule)
      modifies this
      ensures Policy == old(Policy) + [rule] && Policy[..|Policy| - 1] == old(Policy)
      ensures PolicyMap == old(PolicyMap)[Key(rule) := |old(Policy)|]
      ensures old(Valid()) && Key(rule) !in old(PolicyMap) ==>
                Valid() && ShiftedWith(old(Policy), rule, PolicyMap, |old(Policy)|)
    {
      ghost var p0, m0 := Policy, PolicyMap;
      Policy := Policy + [rule];
      PolicyMap := PolicyMap[Key(rule) := |Policy| - 1];
      assert Policy[..|Policy| - 1] == p0;
      if Indexed(p0, m0) && Key(rule) !in m0 {
        ShiftedWithStart(p0, m0, rule);
        AppendIndexed(p0, m0, rule);
      }
    }

    /**
     * The shifting loop of the priority insertion: `rule`, just appended,
     * moves back past every rule strictly above priority `v`, each moved
     * rule's entry going up by one, and is keyed to the slot it lands in.
     */
    method ShiftIntoPlace(c: nat, v: int, rule: Rule)
      requires |Policy| > 0 && Policy[|Policy| - 1] == rule
      requires ScanSafe(Policy[..|Policy| - 1], c, v, Atoi)
      modifies this
      ensures var p0 := old(Policy[..|Policy| - 1]);
        Policy == p0[..InsertPos(p0, c, v, Atoi)] + [rule] + p0[InsertPos(p0, c, v, Atoi)..]
      ensures old(ShiftedWith(Policy[..|Policy| - 1], rule, PolicyMap, |Policy| - 1)) ==> Valid()
      ensures Key(rule) in PolicyMap
    {
      ghost var p0 := Policy[..|Policy| - 1];
      ghost var absent := ShiftedWith(p0, rule, PolicyMap, |p0|);
      assert Policy[..|p0|] == p0 && Policy[|p0| + 1..] == [];
      var i := ShiftBack(c, v, p0, rule, absent);
      if absent {
        ShiftedWithInsert(p0, rule, PolicyMap, i);
      }
      GappedFill(Policy, p0, i, rule);
      Policy := Policy[i := rule];
      PolicyMap := PolicyMap[Key(rule) := i];
    }

    /**
     * The loop of the shift: from the end of `p0`, moves the gap back past
     * every rule strictly above priority `v` and stops at the slot the
     * priority scan finds.
     */
    method ShiftBack(c: nat, v: int, ghost p0: seq<Rule>, ghost rule: Rule, ghost absent: bool) returns (i: int)
      requires Gapped(Policy, p0, |p0|) && ScanSafe(p0, c, v, Atoi)
      requires absent ==> ShiftedWith(p0, rule, PolicyMap, |p0|)
      modifies this
      ensures Gapped(Policy, p0, i) && i == InsertPos(p0, c, v, Atoi)
      ensures absent ==> ShiftedWith(p0, rule, PolicyMap, i)
    {
      i := |Policy| - 1;
      while i > 0
        invariant Gapped(Policy, p0, i)
        invariant AllAbove(p0, i, c, v, Atoi)
        invariant absent ==> ShiftedWith(p0, rule, PolicyMap, i)
      {
        GappedShift(Policy, p0, i);
        ScanReads(p0, i, c, v, Atoi);
        var prev := Atoi(Policy[i - 1][c]);
        if prev.None? || prev.value <= v {
          break;
        }
        ShiftOne(i, p0, rule, absent);
        i := i - 1;
      }
      ScanResult(p0, i, c, v, Atoi);
    }

    /**
     * One step of the shift: the rule before the gap moves into it and its
     * index entry goes up by one.
     */
    method ShiftOne(i: int, ghost p0: seq<Rule>, ghost rule: Rule, ghost absent: bool)
      requires Gapped(Policy, p0, i) && 0 < i
      requires absent ==> ShiftedWith(p0, rule, PolicyMap, i)
      modifies this
      ensures Policy == old(Policy)[i := old(Policy)[i - 1]]
      ensures PolicyMap == old(PolicyMap)[Key(p0[i - 1]) := GetOrZero(old(PolicyMap), Key(p0[i - 1])) + 1]
      ensures Gapped(Policy, p0, i - 1)
      ensures absent ==> ShiftedWith(p0, rule, PolicyMap, i - 1)
    {
      GappedShift(Policy, p0, i);
      if absent {
        ShiftedWithDown(p0, rule, PolicyMap, i);
      }
      var moved := Key(Policy[i - 1]);
      Policy := Policy[i := Policy[i - 1]];
      PolicyMap := PolicyMap[moved := GetOrZero(PolicyMap, moved) + 1];
    }

    /** Key membership in the index; for an indexed store, whether some stored rule has the key. */
    function HasPolicy(rule: Rule): (found: bool)
      reads this
      ensures Valid() ==> (found <==> Key(rule) in KeySet(Policy))
    {
      IndexedLookup(Policy, PolicyMap, Key(rule));
      Key(rule) in PolicyMap
    }

    /** For an indexed store of well-formed rules, the lookup is rule membership. */
    lemma HasPolicyMembership(rule: Rule)
      requires Valid()
      ensures WellFormed(rule) && (forall i :: 0 <= i < |Policy| ==> WellFormed(Policy[i])) ==>
                (HasPolicy(rule) <==> rule in Policy)
    {
      IndexedMembership(Policy, PolicyMap, rule);
    }

    /**
     * Adds each rule whose key is not stored yet, in input order, and reports
     * those it added.
     */
    method AddPoliciesWithAffected(sec: string, rules: seq<Rule>) returns (affected: seq<Rule>)
      requires Valid()
      requires HasColumn(Policy, PriorityColumn(sec)) && HasColumn(rules, PriorityColumn(sec))
      modifies this
      ensures Valid()
      ensures (Policy, affected) == AddAll(old(Policy), rules, PriorityColumn(sec), Atoi)
    {
      var col := PriorityColumn(sec);
      affected := [];
      var n := 0;
      while n < |rules|
        invariant 0 <= n <= |rules|
        invariant Valid()
        invariant (Policy, affected) == AddAll(old(Policy), rules[..n], col, Atoi)
      {
        var rule := rules[n];
        AddAllStep(old(Policy), rules, n, col, Atoi);
        IndexedMembership(Policy, PolicyMap, rule);
        if Key(rule) in PolicyMap {
          n := n + 1;
          continue;
        }
        affected := affected + [rule];
        AddPolicy(sec, rule);
        n := n + 1;
      }
      assert rules[..|rules|] == rules;
    }

    /**
     * Removes a stored rule by moving the last rule into its slot and
     * truncating; reports whether the rule was stored.
     */
    method RemovePolicy(rule: Rule) returns (ok: bool)
      requires Valid()
      modifies this
      ensures Valid()
      ensures ok <==> Key(rule) in old(PolicyMap)
      ensures !ok ==> Policy == old(Policy) && PolicyMap == old(PolicyMap)
      ensures ok ==> Policy == SwapRemove(old(Policy), old(PolicyMap)[Key(rule)])
      ensures Key(rule) !in PolicyMap
    {
      var key := Key(rule);
      if key !in PolicyMap {
        return false;
      }
      ghost var p0, m0 := Policy, PolicyMap;
      var index := PolicyMap[key];
      assert Key(p0[index]) == key;
      SwapRemoveIndexed(p0, m0, index);
      var lastIdx := |Policy| - 1;
      if index != lastIdx {
        Policy := Policy[index := Policy[lastIdx]];
        var lastPolicyKey := Key(Policy[index]);
        PolicyMap := PolicyMap[lastPolicyKey := index];
      }
      Policy := Policy[..lastIdx];
      PolicyMap := PolicyMap - {key};
      assert Policy == SwapRemove(p0, index);
      return true;
    }

    /**
     * Removes each stored input rule in turn, shifting the rules after it
     * down and re-keying them; reports the rules it removed.
     */
    method RemovePoliciesWithAffected(rules: seq<Rule>) returns (affected: seq<Rule>)
      requires Valid()
      modifies this
      ensures Valid()
      ensures (Policy, affected) == RemoveAll(old(Policy), rules)
    {
      affected := [];
      for n := 0 to |rules|
        invariant Valid()
        invariant (Policy, affected) == RemoveAll(old(Policy), rules[..n])
      {
        var rule := rules[n];
        assert rules[..n + 1][..n] == rules[..n] && rules[..n + 1][n] == rule;
        IndexedMembership(Policy, PolicyMap, rule);
        if Key(rule) !in PolicyMap {
          continue;
        }
        affected := affected + [rule];
        RemoveShifting(rule);
      }
      assert rules[..|rules|] == rules;
    }

    /**
     * One removal of the batch: the stored rule leaves its slot, the rules
     * after it move down one slot and their index entries follow.
     */
    method RemoveShifting(rule: Rule)
      requires Valid() && Key(rule) in PolicyMap
      modifies this
      ensures Valid()
      ensures Policy == Without(old(Policy), {Key(rule)})
    {
      var index := PolicyMap[Key(rule)];
      IndexedKeys(Policy, PolicyMap);
      WithoutSplice(Policy, index);
      SpliceShifted(Policy, PolicyMap, index);
      Policy := Policy[..index] + Policy[index + 1..];
      PolicyMap := PolicyMap - {Key(rule)};
      var i := index;
      ghost var spliced := Policy;
      while i < |Policy|
        invariant Policy == spliced
        invariant ShiftedFrom(Policy, PolicyMap, i)
      {
        ShiftUp(Policy, PolicyMap, i);
        PolicyMap := PolicyMap[Key(Policy[i]) := i];
        i := i + 1;
      }
      ShiftedFromEnd(Policy, PolicyMap);
    }

    /** The stored rules the field filter matches, in order. */
    method GetFilteredPolicy(fieldIndex: int, fieldValues: seq<string>) returns (res: seq<Rule>)
      requires forall j :: 0 <= j < |Policy| ==> MatchSafe(Policy[j], fieldIndex, fieldValues)
      ensures res == Keep(Policy, Matching(fieldIndex, fieldValues))
    {
      res := [];
      for n := 0 to |Policy|
        invariant res == Keep(Policy[..n], Matching(fieldIndex, fieldValues))
      {
        var rule := Policy[n];
        assert Policy[..n + 1][..n] == Policy[..n] && Policy[..n + 1][n] == rule;
        var matched := MatchRule(rule, fieldIndex, fieldValues);
        if matched {
          res := res + [rule];
        }
      }
      assert Policy[..|Policy|] == Policy;
    }

    /**
     * Removes the rules the field filter matches, keeping the others in
     * order and rebuilding the index; reports whether anything was removed
     * and the removed rules in order.
     */
    method RemoveFilteredPolicy(fieldIndex: int, fieldValues: seq<string>) returns (res: bool, effects: seq<Rule>)
      requires forall j :: 0 <= j < |Policy| ==> MatchSafe(Policy[j], fieldIndex, fieldValues)
      modifies this
      ensures effects == Keep(old(Policy), Matching(fieldIndex, fieldValues))
      ensures Policy == Keep(old(Policy), NotMatching(fieldIndex, fieldValues))
      ensures res <==> |effects| > 0
      ensures res <==> |Policy| < |old(Policy)|
      ensures DistinctKeys(old(Policy)) ==> Valid()
    {
      ghost var p0 := Policy;
      var tmp;
      tmp, effects := SplitByFilter(fieldIndex, fieldValues);
      KeepPartition(p0, Matching(fieldIndex, fieldValues), NotMatching(fieldIndex, fieldValues));
      if |tmp| != |Policy| {
        Policy := tmp;
        res := true;
      } else {
        KeepFull(p0, NotMatching(fieldIndex, fieldValues));
        res := false;
      }
    }

    /**
     * The loop of the filtered removal: splits the list into the rules the
     * filter keeps and those it matches, both in order, and indexes the kept
     * ones from scratch.
     */
    method SplitByFilter(fieldIndex: int, fieldValues: seq<string>) returns (tmp: seq<Rule>, effects: seq<Rule>)
      requires forall j :: 0 <= j < |Policy| ==> MatchSafe(Policy[j], fieldIndex, fieldValues)
      modifies this
      ensures Policy == old(Policy)
      ensures effects == Keep(Policy, Matching(fieldIndex, fieldValues))
      ensures tmp == Keep(Policy, NotMatching(fieldIndex, fieldValues))
      ensures DistinctKeys(Policy) ==> Indexed(tmp, PolicyMap)
    {
      var p := Policy;
      var m: map<string, int> := map[];
      tmp := [];
      effects := [];
      SplitStart(p, fieldIndex, fieldValues);
      for n := 0 to |p|
        modifies {}
        invariant SplitUpTo(p, n, tmp, effects, m, fieldIndex, fieldValues)
      {
        var rule := p[n];
        var matched := MatchRule(rule, fieldIndex, fieldValues);
        if matched {
          SplitMatched(p, n, tmp, effects, m, fieldIndex, fieldValues);
          effects := effects + [rule];
        } else {
          SplitKept(p, n, tmp, effects, m, fieldIndex, fieldValues);
          m := m[Key(rule) := |tmp|];
          tmp := tmp + [rule];
        }
      }
      assert p[..|p|] == p;
      PolicyMap := m;
    }

    /**
     * Replaces a stored rule in its slot and re-keys the slot; reports
     * whether the old rule was stored.
     */
    method UpdatePolicy(oldRule: Rule, newRule: Rule) returns (ok: bool)
      requires Valid()
      modifies this
      ensures ok <==> Key(oldRule) in old(PolicyMap)
      ensures !ok ==> Policy == old(Policy) && PolicyMap == old(PolicyMap)
      ensures ok ==> var index := old(PolicyMap)[Key(oldRule)];
        && Policy == old(Policy)[index := newRule]
        && PolicyMap == (old(PolicyMap) - {Key(oldRule)})[Key(newRule) := index]
      ensures ok && (Key(newRule) == Key(oldRule) || Key(newRule) !in old(PolicyMap)) ==> Valid()
      ensures !ok ==> Valid()
    {
      var oldPolicy := Key(oldRule);
      if oldPolicy !in PolicyMap {
        return false;
      }
      var index := PolicyMap[oldPolicy];
      if Key(newRule) == oldPolicy || Key(newRule) !in PolicyMap {
        ReplaceIndexed(Policy, PolicyMap, index, newRule);
      }
      Policy := Policy[index := newRule];
      PolicyMap := PolicyMap - {oldPolicy};
      PolicyMap := PolicyMap[Key(newRule) := index];
      return true;
    }

    /** Empties the store. */
    method Clear()
      modifies this
      ensures Policy == [] && PolicyMap == map[]
      ensures Valid()
    {
      Policy := [];
      PolicyMap := map[];
    }

    /**
     * Applies the pairs in order, each writing the new rule into the old
     * rule's slot and re-keying it; if an old rule is missing, undoes what
     * the earlier pairs did and reports failure.
     */
    method UpdatePolicies(oldRules: seq<Rule>, newRules: seq<Rule>) returns (ok: bool)
      requires Valid() && |newRules| >= |oldRules|
      modifies this
      ensures |Policy| == |old(Policy)|
      ensures ok <==> Reaches(old(Policy), old(PolicyMap), oldRules, newRules, |oldRules|)
      ensures ok ==> var r := Run(old(Policy), old(PolicyMap), oldRules, newRules, |oldRules|);
                Policy == r.0 && PolicyMap == r.1
      ensures !ok ==> exists n ::
                && 0 <= n < |oldRules| && Reaches(old(Policy), old(PolicyMap), oldRules, newRules, n)
                && Key(oldRules[n]) !in Run(old(Policy), old(PolicyMap), oldRules, newRules, n).1
                && Policy == Restored(Run(old(Policy), old(PolicyMap), oldRules, newRules, n).0,
                                      Run(old(Policy), old(PolicyMap), oldRules, newRules, n).2, oldRules)
      ensures BatchUpdateSafe(old(Policy), old(PolicyMap), oldRules, newRules) ==>
                (ok <==> forall j :: 0 <= j < |oldRules| ==> Key(oldRules[j]) in old(PolicyMap))
      ensures BatchUpdateSafe(old(Policy), old(PolicyMap), oldRules, newRules) && !ok ==>
                Policy == old(Policy) && PolicyMap == old(PolicyMap)
      ensures BatchUpdateSafe(old(Policy), old(PolicyMap), oldRules, newRules) && ok ==>
                && Valid()
                && (forall j :: 0 <= j < |oldRules| ==>
                      Key(oldRules[j]) in old(PolicyMap) && 0 <= old(PolicyMap)[Key(oldRules[j])] < |Policy|
                      && Policy[old(PolicyMap)[Key(oldRules[j])]] == newRules[j])
                && (forall i :: 0 <= i < |Policy| && Key(old(Policy)[i]) !in KeySet(oldRules) ==>
                      Policy[i] == old(Policy)[i])
    {
      ghost var p0, m0 := Policy, PolicyMap;
      ghost var safe := BatchUpdateSafe(p0, m0, oldRules, newRules);
      UpdatedStart(p0, m0, oldRules, newRules);
      var found, oldIndex, modifiedRuleIndex := ApplyPairs(oldRules, newRules, p0, m0, safe);
      if !found {
        if safe {
          UpdatedMissing(Policy, PolicyMap, p0, m0, oldRules, newRules, modifiedRuleIndex, oldIndex);
        }
        Rollback(oldRules, newRules, modifiedRuleIndex, p0, m0);
        ReachesMissing(p0, m0, oldRules, newRules, oldIndex);
        assert Reaches(p0, m0, oldRules, newRules, oldIndex) && Key(oldRules[oldIndex]) !in Run(p0, m0, oldRules, newRules, oldIndex).1
          && Policy == Restored(Run(p0, m0, oldRules, newRules, oldIndex).0, Run(p0, m0, oldRules, newRules, oldIndex).2, oldRules);
        return false;
      }
      if safe {
        UpdatedDone(Policy, PolicyMap, p0, m0, oldRules, newRules, modifiedRuleIndex);
      }
      return true;
    }

    /**
     * The update loop: applies the pairs in order until an old rule is
     * missing, recording each modified slot; reports whether it got through
     * and where it stopped.
     */
    method ApplyPairs(oldRules: seq<Rule>, newRules: seq<Rule>, ghost p0: seq<Rule>, ghost m0: map<string, int>, ghost safe: bool)
        returns (found: bool, oldIndex: int, modifiedRuleIndex: map<int, (int, int)>)
      requires Valid() && |newRules| >= |oldRules| && Policy == p0 && PolicyMap == m0
      requires safe ==> BatchUpdateSafe(p0, m0, oldRules, newRules)
      requires safe ==> UpdatedUpTo(p0, m0, p0, m0, oldRules, newRules, map[], 0)
      modifies this
      ensures found <==> oldIndex == |oldRules|
      ensures !found ==> 0 <= oldIndex < |oldRules| && Key(oldRules[oldIndex]) !in PolicyMap
      ensures PairsUpTo(Policy, PolicyMap, modifiedRuleIndex, p0, m0, oldRules, newRules, safe, oldIndex)
    {
      modifiedRuleIndex := map[];
      var newIndex := 0;
      oldIndex := 0;
      while oldIndex < |oldRules|
        invariant newIndex == oldIndex
        invariant PairsUpTo(Policy, PolicyMap, modifiedRuleIndex, p0, m0, oldRules, newRules, safe, oldIndex)
      {
        if Key(oldRules[oldIndex]) !in PolicyMap {
          return false, oldIndex, modifiedRuleIndex;
        }
        modifiedRuleIndex := ApplyPair(oldRules, newRules, modifiedRuleIndex, oldIndex, p0, m0, safe);
        newIndex := newIndex + 1;
        oldIndex := oldIndex + 1;
      }
      return true, oldIndex, modifiedRuleIndex;
    }

    /**
     * One pair of the batch update: the new rule takes the old rule's slot,
     * the old key leaves the index, the new key points to the slot, and the
     * slot is recorded with the pair's number.
     */
    method ApplyPair(oldRules: seq<Rule>, newRules: seq<Rule>, modifiedRuleIndex: map<int, (int, int)>, n: int,
                     ghost p0: seq<Rule>, ghost m0: map<string, int>, ghost safe: bool)
        returns (modified: map<int, (int, int)>)
      requires 0 <= n < |oldRules| && Key(oldRules[n]) in PolicyMap
      requires safe ==> BatchUpdateSafe(p0, m0, oldRules, newRules)
      requires PairsUpTo(Policy, PolicyMap, modifiedRuleIndex, p0, m0, oldRules, newRules, safe, n)
      modifies this
      ensures var index := old(PolicyMap)[Key(oldRules[n])];
        && Policy == old(Policy)[index := newRules[n]]
        && PolicyMap == (old(PolicyMap) - {Key(oldRules[n])})[Key(newRules[n]) := index]
        && modified == modifiedRuleIndex[index := (n, n)]
      ensures PairsUpTo(Policy, PolicyMap, modified, p0, m0, oldRules, newRules, safe, n + 1)
    {
      var oldPolicy := Key(oldRules[n]);
      var index := PolicyMap[oldPolicy];
      if safe {
        UpdatedFound(Policy, PolicyMap, p0, m0, oldRules, newRules, modifiedRuleIndex, n);
      }
      RunFound(p0, m0, oldRules, newRules, n);
      Policy := Policy[index := newRules[n]];
      PolicyMap := PolicyMap - {oldPolicy};
      PolicyMap := PolicyMap[Key(newRules[n]) := index];
      modified := modifiedRuleIndex[index := (n, n)];
    }

    /**
     * The deferred rollback: for each recorded slot, in no particular order,
     * writes the old rule back, deletes the new key and keys the old rule to
     * the slot.
     */
    method Rollback(oldRules: seq<Rule>, newRules: seq<Rule>, modifiedRuleIndex: map<int, (int, int)>,
                    ghost p0: seq<Rule>, ghost m0: map<string, int>)
      requires forall i :: i in modifiedRuleIndex ==>
                 0 <= i < |Policy| && 0 <= modifiedRuleIndex[i].0 < |oldRules| && 0 <= modifiedRuleIndex[i].1 < |newRules|
      modifies this
      ensures Policy == Restored(old(Policy), modifiedRuleIndex, oldRules)
      ensures old(Restorable(Policy, PolicyMap, p0, m0, oldRules, newRules, modifiedRuleIndex)) ==>
                Policy == p0 && PolicyMap == m0
    {
      ghost var ready := Restorable(Policy, PolicyMap, p0, m0, oldRules, newRules, modifiedRuleIndex);
      var pending := modifiedRuleIndex;
      while |pending| > 0
        invariant forall i :: i in pending ==> i in modifiedRuleIndex && pending[i] == modifiedRuleIndex[i]
        invariant |Policy| == |old(Policy)|
        invariant UndoneExcept(Policy, old(Policy), modifiedRuleIndex, pending, oldRules)
        invariant ready ==> Restorable(Policy, PolicyMap, p0, m0, oldRules, newRules, pending)
        decreases |pending|
      {
        var index := SomeRecordedSlot(pending);
        var oldNewIndex := pending[index];
        if ready {
          RestoreStep(Policy, PolicyMap, p0, m0, oldRules, newRules, pending, index);
        }
        UndoStep(Policy, old(Policy), modifiedRuleIndex, pending, oldRules, index);
        Policy := Policy[index := oldRules[oldNewIndex.0]];
        var oldPolicy := Key(oldRules[oldNewIndex.0]);
        var newPolicy := Key(newRules[oldNewIndex.1]);
        PolicyMap := PolicyMap - {newPolicy};
        PolicyMap := PolicyMap[oldPolicy := index];
        pending := pending - {index};
      }
      UndoDone(Policy, old(Policy), modifiedRuleIndex, oldRules);
      if ready {
        RestoreDone(Policy, PolicyMap, p0, m0, oldRules, newRules);
      }
    }

    /** The values of column `fieldIndex` over the stored rules, each once. */
    method GetValuesForFieldInPolicy(fieldIndex: int) returns (values: seq<string>)
      requires |Policy| > 0 ==> 0 <= fieldIndex
      requires forall j :: 0 <= j < |Policy| ==> fieldIndex < |Policy[j]|
      ensures forall i, j :: 0 <= i < j < |values| ==> values[i] != values[j]
      ensures forall x :: x in values <==> exists j :: 0 <= j < |Policy| && Policy[j][fieldIndex] == x
    {
      values := [];
      for n := 0 to |Policy|
        invariant |values| == n
        invariant forall j :: 0 <= j < n ==> values[j] == Policy[j][fieldIndex]
      {
        values := values + [Policy[n][fieldIndex]];
      }
      ghost var all := values;
      values := RemoveDuplicates(values);
      forall x | x in all ensures exists j :: 0 <= j < |Policy| && Policy[j][fieldIndex] == x {
        var j :| 0 <= j < |all| && all[j] == x;
      }
    }
  }
}
