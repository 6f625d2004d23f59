/**
 * Concrete scenarios whose results follow from the contracts of the
 * store's operations.
 */
module Scenarios {
  import opened Wrappers
  import opened Strconv
  import opened RuleKeys
  import opened Selection
  import opened Priority
  import opened Batch
  import opened Updates
  import opened Assertions
  import Policy

  const Alice: Rule := ["alice", "data", "read", "20"]
  const Bob: Rule := ["bob", "data", "write", "10"]

  /** Priority 20 into an empty list, then priority 10 in front of it. */
  lemma AliceThenBob()
    ensures Insertable([], Alice, Some(3), Atoi) && PriorityInsert([], Alice, Some(3), Atoi) == [Alice]
    ensures Insertable([Alice], Bob, Some(3), Atoi) && PriorityInsert([Alice], Bob, Some(3), Atoi) == [Bob, Alice]
  {
    AlicePriority();
    BobInFront();
  }

  /** Priority 10 goes in front of a stored priority 20. */
  lemma BobInFront()
    requires Atoi(Alice[3]) == Some(20) && Atoi(Bob[3]) == Some(10)
    ensures Insertable([Alice], Bob, Some(3), Atoi) && PriorityInsert([Alice], Bob, Some(3), Atoi) == [Bob, Alice]
  {
    assert Above(Alice, 3, 10, Atoi);
    assert [Alice][..0] == [];
    assert InsertPos([Alice], 3, 10, Atoi) == 0;
  }

  /** The two priority fields parse to 20 and 10. */
  lemma AlicePriority()
    ensures Atoi(Alice[3]) == Some(20) && Atoi(Bob[3]) == Some(10)
  {
    assert Alice[3] == ['2', '0'] && Bob[3] == ['1', '0'];
    AtoiTwoDigits('2', '0');
    AtoiTwoDigits('1', '0');
  }

  /**
   * Rule type "p" with fields sub, obj, act, priority: adding priority 20
   * and then priority 10 stores the lower priority first.
   */
  method PriorityScenario() returns (stored: seq<Rule>)
    ensures stored == [Bob, Alice]
  {
    var a := new Assertion(["sub", "obj", "act", "priority"], map[PriorityIndex := 3]);
    assert a.PriorityColumn("p") == Some(3);
    AliceThenBob();
    a.AddPolicy("p", Alice);
    a.AddPolicy("p", Bob);
    stored := a.Policy;
  }

  /**
   * The store's parser meets what Priority.UnparsedBarrier assumes of its
   * parser, so with Atoi too a rule whose priority is not a number stops the
   * scan and leaves the numeric priorities around it out of order.
   */
  lemma BarrierDigits()
    ensures Atoi("3") == Some(3) && Atoi("2") == Some(2) && Atoi("x") == None
  {
    AtoiSamples();
    AtoiDigit('3');
    AtoiDigit('2');
  }

  /** A one-field rule is keyed by its field. */
  lemma SingleKey(x: string)
    ensures Key([x]) == x
  {
  }

  const R1: Rule := ["r1"]
  const R2: Rule := ["r2"]

  lemma R1ThenR2()
    ensures AddAll([R1], [R1, R2], None, Atoi) == ([R1, R2], [R2])
  {
    SingleKey("r1");
    SingleKey("r2");
    assert KeySet([R1]) == {"r1"} by {
      assert [R1][0] == R1;
    }
    assert [R1][..0] == [];
    assert AddAll([R1], [R1], None, Atoi) == ([R1], []);
    assert [R1, R2][..1] == [R1];
    assert [R1, R2][1] == R2 && Key(R2) !in KeySet([R1]);
    assert PriorityInsert([R1], R2, None, Atoi) == [R1, R2];
    assert AddAll([R1], [R1, R2], None, Atoi) == (PriorityInsert([R1], R2, None, Atoi), [] + [R2]);
    assert [] + [R2] == [R2];
  }

  /**
   * A batch add of an already stored rule and a new one reports only the
   * new one, and the store holds each once.
   */
  method AffectedScenario() returns (affected: seq<Rule>, stored: seq<Rule>)
    ensures affected == [R2] && stored == [R1, R2]
  {
    var a := new Assertion(["sub"], map[]);
    assert a.PriorityColumn("p") == None;
    a.AddPolicy("p", R1);
    assert a.Policy == [R1];
    R1ThenR2();
    affected := a.AddPoliciesWithAffected("p", [R1, R2]);
    stored := a.Policy;
  }

  const A: Rule := ["a"]
  const B: Rule := ["b"]
  const C: Rule := ["c"]
  const X: Rule := ["x"]

  /** The keys of the stored rules a, b, c, and the batch's old and new rules. */
  lemma AtomicityFacts(p: seq<Rule>, m: map<string, int>)
    requires p == [A, B, C] && Indexed(p, m)
    ensures m.Keys == {"a", "b", "c"}
    ensures BatchUpdateSafe(p, m, [A, B, X], [["a2"], ["b2"], ["x2"]])
    ensures Key(X) !in m
  {
    StoredKeys(p, m);
    SingleKey("x");
    AtomicitySafe(p, m);
  }

  /** The index of the list a, b, c holds exactly their keys. */
  lemma StoredKeys(p: seq<Rule>, m: map<string, int>)
    requires p == [A, B, C] && Indexed(p, m)
    ensures m.Keys == {"a", "b", "c"}
  {
    SingleKey("a"); SingleKey("b"); SingleKey("c");
    IndexedKeys(p, m);
    assert KeySet(p) == {"a", "b", "c"} by {
      assert p[0] == A && p[1] == B && p[2] == C;
    }
  }

  /** The rules a, b, c have three different keys. */
  lemma StoredDistinct()
    ensures DistinctKeys([A, B, C])
  {
    SingleKey("a"); SingleKey("b"); SingleKey("c");
    var p := [A, B, C];
    assert p[0] == A && p[1] == B && p[2] == C;
  }

  /** Replacing a, b, x by a2, b2, x2 over the keys a, b, c meets the rollback's conditions. */
  lemma AtomicitySafe(p: seq<Rule>, m: map<string, int>)
    requires p == [A, B, C] && m.Keys == {"a", "b", "c"}
    ensures BatchUpdateSafe(p, m, [A, B, X], [["a2"], ["b2"], ["x2"]])
  {
    SingleKey("a"); SingleKey("b"); SingleKey("c"); SingleKey("x");
    SingleKey("a2"); SingleKey("b2"); SingleKey("x2");
  }

  /**
   * With a, b, c stored, replacing a, b, x by a2, b2, x2 where x is not
   * stored fails and leaves a, b, c in place.
   */
  method AtomicityScenario() returns (ok: bool, stored: seq<Rule>)
    ensures !ok && stored == [A, B, C]
  {
    StoredDistinct();
    var s := Build(["sub"], [A, B, C]);
    AtomicityFacts(s.Policy, s.PolicyMap);
    ok := s.UpdatePolicies([A, B, X], [["a2"], ["b2"], ["x2"]]);
    assert [A, B, X][2] == X;
    stored := s.Policy;
  }

  const A2: Rule := ["a2"]
  const A3: Rule := ["a3"]
  const X2: Rule := ["x2"]

  /**
   * With only a stored, the update loop over a, a2, x and a2, a3, x2 moves
   * slot 0 from a to a2 and then to a3, recording the second pair there,
   * and stops at x. The batch is not safe: a2 is an old and a new key.
   */
  lemma ChainedRun(m: map<string, int>)
    requires Indexed([A], m)
    ensures InBounds([A], m) && !BatchUpdateSafe([A], m, [A, A2, X], [A2, A3, X2])
    ensures Reaches([A], m, [A, A2, X], [A2, A3, X2], 2)
    ensures Run([A], m, [A, A2, X], [A2, A3, X2], 2) == ([A3], map["a3" := 0], map[0 := (1, 1)])
    ensures !Reaches([A], m, [A, A2, X], [A2, A3, X2], 3)
  {
    SingleKey("a"); SingleKey("a2"); SingleKey("a3"); SingleKey("x");
    IndexedKeys([A], m);
    assert KeySet([A]) == {"a"} by {
      assert [A][0] == A;
    }
    assert m == map["a" := 0];
    var olds, news := [A, A2, X], [A2, A3, X2];
    assert Key(olds[1]) == Key(news[0]);
    assert Run([A], m, olds, news, 0) == ([A], m, map[]);
    assert olds[0] == A && news[0] == A2 && [A][0 := A2] == [A2];
    assert (m - {"a"})["a2" := 0] == map["a2" := 0];
    assert Run([A], m, olds, news, 1) == ([A2], map["a2" := 0], map[0 := (0, 0)]);
    assert olds[1] == A2 && news[1] == A3 && [A2][0 := A3] == [A3];
    assert (map["a2" := 0] - {"a2"})["a3" := 0] == map["a3" := 0];
    assert map[0 := (0, 0)][0 := (1, 1)] == map[0 := (1, 1)];
    assert Run([A], m, olds, news, 2) == ([A3], map["a3" := 0], map[0 := (1, 1)]);
  }

  /** There the rollback writes back the old rule of the last pair recorded at slot 0, which is a2, not a. */
  lemma ChainedRollback()
    ensures Restored([A3], map[0 := (1, 1)], [A, A2, X]) == [A2]
  {
    var r := Restored([A3], map[0 := (1, 1)], [A, A2, X]);
    assert r[0] == [A, A2, X][1];
  }

  /**
   * The rollback does not always restore: with only a stored, replacing a,
   * a2, x by a2, a3, x2 fails, and leaves a2 where a was.
   */
  method ChainedScenario() returns (ok: bool, stored: seq<Rule>)
    ensures !ok && stored == [A2]
  {
    var s := Build(["sub"], [A]);
    ChainedRun(s.PolicyMap);
    ChainedRollback();
    ghost var m := s.PolicyMap;
    ok := s.UpdatePolicies([A, A2, X], [A2, A3, X2]);
    assert !ok;
    ghost var n :| && 0 <= n < 3 && Reaches([A], m, [A, A2, X], [A2, A3, X2], n)
                   && Key([A, A2, X][n]) !in Run([A], m, [A, A2, X], [A2, A3, X2], n).1
                   && s.Policy == Restored(Run([A], m, [A, A2, X], [A2, A3, X2], n).0,
                                           Run([A], m, [A, A2, X], [A2, A3, X2], n).2, [A, A2, X]);
    assert n == 2;
    stored := s.Policy;
  }

  /** The same call made through the model map, at section "p", rule type "p". */
  method ChainedModelScenario() returns (r: Result<bool, Policy.Error>, stored: seq<Rule>)
    ensures r == Success(false) && stored == [A2]
  {
    var s := Build(["sub"], [A]);
    ChainedRun(s.PolicyMap);
    ChainedRollback();
    ghost var m := s.PolicyMap;
    var model: Policy.Model := map["p" := map["p" := s]];
    r := Policy.UpdatePolicies(model, "p", "p", [A, A2, X], [A2, A3, X2]);
    assert r.Success? && !r.value;
    ghost var n :| && 0 <= n < 3 && Reaches([A], m, [A, A2, X], [A2, A3, X2], n)
                   && Key([A, A2, X][n]) !in Run([A], m, [A, A2, X], [A2, A3, X2], n).1
                   && s.Policy == Restored(Run([A], m, [A, A2, X], [A2, A3, X2], n).0,
                                           Run([A], m, [A, A2, X], [A2, A3, X2], n).2, [A, A2, X]);
    assert n == 2;
    stored := s.Policy;
  }

  const FA: Rule := ["a", "read"]
  const FB: Rule := ["b", "write"]
  const FC: Rule := ["c", "read"]
  const FD: Rule := ["d", "write"]

  /** A two-field rule is keyed by its fields around one separator. */
  lemma PairKey(x: string, y: string)
    ensures Key([x, y]) == x + DefaultSep + y
  {
    assert [x, y][1..] == [y];
    assert Join([y], DefaultSep) == y;
  }

  /** Which of the four rules the filter "write" on column 1 matches. */
  lemma FilterMatches()
    ensures !Matches(FA, 1, ["write"]) && Matches(FB, 1, ["write"])
    ensures !Matches(FC, 1, ["write"]) && Matches(FD, 1, ["write"])
    ensures forall j :: 0 <= j < 4 ==> MatchSafe([FA, FB, FC, FD][j], 1, ["write"])
  {
    var fv := ["write"];
    assert fv[0] == "write" && |fv| == 1;
    assert FA[1] == "read" && FB[1] == "write" && FC[1] == "read" && FD[1] == "write";
    assert |"read"| != |"write"|;
    assert !(FA[1 + 0] == fv[0]) && !(FC[1 + 0] == fv[0]);
    assert FB[1 + 0] == fv[0] && FD[1 + 0] == fv[0];
  }

  /** Selection takes one more rule at the end. */
  lemma KeepSnoc(p: seq<Rule>, x: Rule, keep: Rule -> bool)
    ensures Keep(p + [x], keep) == Keep(p, keep) + (if keep(x) then [x] else [])
  {
    assert (p + [x])[..|p|] == p;
  }

  /** Matching rules b and d out of a, b, c, d leaves a and c in order. */
  lemma FilterFacts()
    ensures Keep([FA, FB, FC, FD], NotMatching(1, ["write"])) == [FA, FC]
    ensures Keep([FA, FB, FC, FD], Matching(1, ["write"])) == [FB, FD]
  {
    FilterMatches();
    var drop, keep := NotMatching(1, ["write"]), Matching(1, ["write"]);
    KeepSnoc([], FA, drop); KeepSnoc([], FA, keep);
    assert [] + [FA] == [FA];
    KeepSnoc([FA], FB, drop); KeepSnoc([FA], FB, keep);
    assert [FA] + [FB] == [FA, FB];
    KeepSnoc([FA, FB], FC, drop); KeepSnoc([FA, FB], FC, keep);
    assert [FA, FB] + [FC] == [FA, FB, FC];
    KeepSnoc([FA, FB, FC], FD, drop); KeepSnoc([FA, FB, FC], FD, keep);
    assert [FA, FB, FC] + [FD] == [FA, FB, FC, FD];
  }

  /** The four keys differ. */
  lemma FilterKeys()
    ensures Key(FA) != Key(FB) && Key(FA) != Key(FC) && Key(FA) != Key(FD)
    ensures Key(FB) != Key(FC) && Key(FB) != Key(FD) && Key(FC) != Key(FD)
  {
    PairKey("a", "read"); PairKey("b", "write"); PairKey("c", "read"); PairKey("d", "write");
    assert Key(FA)[0] == 'a' && Key(FB)[0] == 'b' && Key(FC)[0] == 'c' && Key(FD)[0] == 'd';
  }

  /** A fresh store of section "p" without a priority field, holding `rules` in order. */
  method Build(tokens: seq<string>, rules: seq<Rule>) returns (s: Assertion)
    requires DistinctKeys(rules)
    ensures fresh(s) && s.Valid() && s.Policy == rules && s.PriorityColumn("p") == None
  {
    s := new Assertion(tokens, map[]);
    for n := 0 to |rules|
      invariant s.Valid() && s.Policy == rules[..n] && s.PriorityColumn("p") == None
    {
      IndexedKeys(s.Policy, s.PolicyMap);
      assert Key(rules[n]) !in KeySet(rules[..n]);
      s.AddPolicy("p", rules[n]);
      assert rules[..n + 1] == rules[..n] + [rules[n]];
    }
    assert rules[..|rules|] == rules;
  }

  /**
   * Removing by a field filter keeps the order of the remaining rules, and
   * the index gives their new positions.
   */
  method FilterScenario() returns (effects: seq<Rule>, stored: seq<Rule>, ia: int, ic: int)
    ensures effects == [FB, FD] && stored == [FA, FC] && ia == 0 && ic == 1
  {
    FilterKeys();
    var p := [FA, FB, FC, FD];
    assert DistinctKeys(p) by {
      assert p[0] == FA && p[1] == FB && p[2] == FC && p[3] == FD;
    }
    var s := Build(["sub", "act"], p);
    FilterMatches();
    FilterFacts();
    var res;
    res, effects := s.RemoveFilteredPolicy(1, ["write"]);
    stored := s.Policy;
    assert s.Policy[0] == FA && s.Policy[1] == FC;
    ia := s.PolicyMap[Key(FA)];
    ic := s.PolicyMap[Key(FC)];
  }
}
