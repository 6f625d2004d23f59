/**
 * Value-level specifications of the batch operations and of the single-rule
 * swap removal, with the properties the store's algorithms inherit from them.
 */
module Batch {
  import opened Wrappers
  import opened RuleKeys
  import opened Selection
  import opened Priority

  // Batch add.

  /**
   * Adding `rules` one at a time: a rule whose key is already stored, by the
   * original list or earlier in the batch, is skipped; every other rule is
   * placed by the priority insertion and listed among the affected rules.
   */
  function AddAll(p: seq<Rule>, rules: seq<Rule>, col: Option<int>, parse: string -> Option<int>): (r: (seq<Rule>, seq<Rule>))
    requires HasColumn(p, col) && HasColumn(rules, col)
    ensures HasColumn(r.0, col)
    decreases |rules|
  {
    if |rules| == 0 then (p, [])
    else
      var prev := AddAll(p, rules[..|rules| - 1], col, parse);
      var rule := rules[|rules| - 1];
      if Key(rule) in KeySet(prev.0) then prev
      else
        assert HasColumn([rule], col) by {
          assert col.Some? ==> col.value < |rules[|rules| - 1]|;
        }
        InsertHasColumn(prev.0, rule, col, parse);
        (PriorityInsert(prev.0, rule, col, parse), prev.1 + [rule])
  }

  /** The batch add over one more input rule: that rule is skipped when its key is stored, inserted otherwise. */
  lemma AddAllStep(p: seq<Rule>, rules: seq<Rule>, n: int, col: Option<int>, parse: string -> Option<int>)
    requires HasColumn(p, col) && HasColumn(rules, col) && 0 <= n < |rules|
    ensures HasColumn(rules[..n], col) && HasColumn(rules[..n + 1], col)
    ensures var prev := AddAll(p, rules[..n], col, parse);
      && Insertable(prev.0, rules[n], col, parse)
      && AddAll(p, rules[..n + 1], col, parse) ==
           if Key(rules[n]) in KeySet(prev.0) then prev
           else (PriorityInsert(prev.0, rules[n], col, parse), prev.1 + [rules[n]])
  {
    assert rules[..n + 1][..n] == rules[..n] && rules[..n + 1][n] == rules[n];
    assert HasColumn([rules[n]], col) by {
      assert col.Some? ==> col.value < |rules[n]|;
    }
    InsertHasColumn(AddAll(p, rules[..n], col, parse).0, rules[n], col, parse);
  }

  lemma InsertKeySet(p: seq<Rule>, rule: Rule, col: Option<int>, parse: string -> Option<int>)
    requires Insertable(p, rule, col, parse)
    ensures KeySet(PriorityInsert(p, rule, col, parse)) == KeySet(p) + {Key(rule)}
  {
    var r := PriorityInsert(p, rule, col, parse);
    forall k | k in KeySet(r) ensures k in KeySet(p) + {Key(rule)} {
      var i :| 0 <= i < |r| && Key(r[i]) == k;
      assert r[i] in r;
      if r[i] != rule {
        var j :| 0 <= j < |p| && p[j] == r[i];
      }
    }
    forall k | k in KeySet(p) + {Key(rule)} ensures k in KeySet(r) {
      if k == Key(rule) {
        assert rule in r;
      } else {
        var j :| 0 <= j < |p| && Key(p[j]) == k;
        assert p[j] in r;
      }
    }
  }

  lemma LastKeys(rules: seq<Rule>)
    requires |rules| > 0
    ensures KeySet(rules) == KeySet(rules[..|rules| - 1]) + {Key(rules[|rules| - 1])}
  {
    assert rules == rules[..|rules| - 1] + [rules[|rules| - 1]];
    KeySetConcat(rules[..|rules| - 1], [rules[|rules| - 1]]);
  }

  /** After a batch add every input rule's key is stored, and no other key is new. */
  lemma {:induction false} AddAllStored(p: seq<Rule>, rules: seq<Rule>, col: Option<int>, parse: string -> Option<int>)
    requires HasColumn(p, col) && HasColumn(rules, col)
    ensures KeySet(AddAll(p, rules, col, parse).0) == KeySet(p) + KeySet(rules)
  {
    if |rules| > 0 {
      var front := rules[..|rules| - 1];
      var rule := rules[|rules| - 1];
      AddAllStored(p, front, col, parse);
      LastKeys(rules);
      var prev := AddAll(p, front, col, parse);
      if Key(rule) !in KeySet(prev.0) {
        assert HasColumn([rule], col) by {
          assert col.Some? ==> col.value < |rules[|rules| - 1]|;
        }
        InsertHasColumn(prev.0, rule, col, parse);
        InsertKeySet(prev.0, rule, col, parse);
      }
    }
  }

  /**
   * The affected rules are the input rules of keys not stored before, they
   * come from the input, and they are exactly what the list gained.
   */
  lemma {:induction false} AddAllAffected(p: seq<Rule>, rules: seq<Rule>, col: Option<int>, parse: string -> Option<int>)
    requires HasColumn(p, col) && HasColumn(rules, col)
    ensures var r := AddAll(p, rules, col, parse);
      && KeySet(r.1) == KeySet(rules) - KeySet(p)
      && multiset(r.0) == multiset(p) + multiset(r.1)
      && (forall x :: x in r.1 ==> x in rules)
  {
    if |rules| > 0 {
      var front := rules[..|rules| - 1];
      var rule := rules[|rules| - 1];
      AddAllAffected(p, front, col, parse);
      AddAllStored(p, front, col, parse);
      LastKeys(rules);
      var prev := AddAll(p, front, col, parse);
      if Key(rule) !in KeySet(prev.0) {
        assert HasColumn([rule], col) by {
          assert col.Some? ==> col.value < |rules[|rules| - 1]|;
        }
        InsertHasColumn(prev.0, rule, col, parse);
        KeySetConcat(prev.1, [rule]);
        assert KeySet([rule]) == {Key(rule)} by {
          assert [rule][0] == rule;
        }
      }
      forall x | x in AddAll(p, rules, col, parse).1 ensures x in rules {
        assert x in prev.1 || x == rule;
        if x in prev.1 {
          assert x in front;
        }
      }
    }
  }

  lemma KeySetConcat(a: seq<Rule>, b: seq<Rule>)
    ensures KeySet(a + b) == KeySet(a) + KeySet(b)
  {
    var c := a + b;
    forall k | k in KeySet(c) ensures k in KeySet(a) + KeySet(b) {
      var i :| 0 <= i < |c| && Key(c[i]) == k;
      if i < |a| {
        assert c[i] == a[i];
      } else {
        assert c[i] == b[i - |a|];
      }
    }
    forall k | k in KeySet(a) + KeySet(b) ensures k in KeySet(c) {
      if k in KeySet(a) {
        var i :| 0 <= i < |a| && Key(a[i]) == k;
        assert c[i] == a[i];
      } else {
        var i :| 0 <= i < |b| && Key(b[i]) == k;
        assert c[|a| + i] == b[i];
      }
    }
  }

  /** Appending a rule of a fresh key keeps keys distinct. */
  lemma AppendDistinct(p: seq<Rule>, rule: Rule)
    requires DistinctKeys(p) && Key(rule) !in KeySet(p)
    ensures DistinctKeys(p + [rule])
  {
    var q := p + [rule];
    forall i, j | 0 <= i < j < |q| ensures Key(q[i]) != Key(q[j]) {
      if j == |p| {
        assert q[i] == p[i];
      } else {
        assert q[i] == p[i] && q[j] == p[j];
      }
    }
  }

  /** The priority insertion of a rule of a fresh key keeps keys distinct. */
  lemma InsertDistinct(p: seq<Rule>, rule: Rule, col: Option<int>, parse: string -> Option<int>)
    requires Insertable(p, rule, col, parse)
    requires DistinctKeys(p) && Key(rule) !in KeySet(p)
    ensures DistinctKeys(PriorityInsert(p, rule, col, parse))
  {
    var r := PriorityInsert(p, rule, col, parse);
    if r == p + [rule] {
      AppendDistinct(p, rule);
    } else {
      var i := InsertPos(p, col.value, parse(rule[col.value]).value, parse);
      InsertSplit(p, rule, i);
      forall a, b | 0 <= a < b < |r| ensures Key(r[a]) != Key(r[b]) {
        if a == i {
          assert r[b] == p[b - 1];
        } else if b == i {
          assert r[a] == p[a];
        } else {
          var a', b' := if a < i then a else a - 1, if b < i then b else b - 1;
          assert r[a] == p[a'] && r[b] == p[b'] && a' < b';
        }
      }
    }
  }

  /** The affected rules have distinct keys, and a batch add keeps the list's keys distinct. */
  lemma {:induction false} AddAllDistinct(p: seq<Rule>, rules: seq<Rule>, col: Option<int>, parse: string -> Option<int>)
    requires HasColumn(p, col) && HasColumn(rules, col)
    ensures DistinctKeys(AddAll(p, rules, col, parse).1)
    ensures DistinctKeys(p) ==> DistinctKeys(AddAll(p, rules, col, parse).0)
  {
    if |rules| > 0 {
      var front := rules[..|rules| - 1];
      var rule := rules[|rules| - 1];
      AddAllDistinct(p, front, col, parse);
      AddAllAffected(p, front, col, parse);
      AddAllStored(p, front, col, parse);
      var prev := AddAll(p, front, col, parse);
      if Key(rule) !in KeySet(prev.0) {
        assert Key(rule) !in KeySet(prev.1);
        assert AddAll(p, rules, col, parse).1 == prev.1 + [rule];
        assert HasColumn([rule], col) by {
          assert col.Some? ==> col.value < |rules[|rules| - 1]|;
        }
        InsertHasColumn(prev.0, rule, col, parse);
        AppendDistinct(prev.1, rule);
        if DistinctKeys(p) {
          InsertDistinct(prev.0, rule, col, parse);
        }
      }
    }
  }

  /** Every rule has the column and its priority parses. */
  predicate AllParse(rules: seq<Rule>, col: nat, parse: string -> Option<int>)
  {
    forall j :: 0 <= j < |rules| ==> col < |rules[j]| && parse(rules[j][col]).Some?
  }

  /** A batch add of parseable priorities into a sorted list leaves it sorted. */
  lemma {:induction false} AddAllKeepsOrder(p: seq<Rule>, rules: seq<Rule>, col: nat, parse: string -> Option<int>)
    requires SortedByPriority(p, col, parse) && AllParse(rules, col, parse)
    ensures HasColumn(p, Some(col)) && HasColumn(rules, Some(col))
    ensures SortedByPriority(AddAll(p, rules, Some(col), parse).0, col, parse)
  {
    if |rules| > 0 {
      var front := rules[..|rules| - 1];
      var rule := rules[|rules| - 1];
      assert AllParse(front, col, parse);
      AddAllKeepsOrder(p, front, col, parse);
      var prev := AddAll(p, front, Some(col), parse);
      if Key(rule) !in KeySet(prev.0) {
        InsertKeepsOrder(prev.0, rule, col, parse);
      }
    }
  }

  // Batch removal.

  /**
   * Removing `rules` one at a time: a rule whose key is stored is deleted,
   * the survivors keeping their order, and listed among the affected rules;
   * a rule whose key is not stored (any more) is skipped.
   */
  function RemoveAll(p: seq<Rule>, rules: seq<Rule>): (r: (seq<Rule>, seq<Rule>))
    ensures |r.0| <= |p|
    decreases |rules|
  {
    if |rules| == 0 then (p, [])
    else
      var prev := RemoveAll(p, rules[..|rules| - 1]);
      var rule := rules[|rules| - 1];
      if Key(rule) in KeySet(prev.0) then (Without(prev.0, {Key(rule)}), prev.1 + [rule])
      else prev
  }

  /** The survivors of a batch removal are the rules whose key no input rule has, in order. */
  lemma {:induction false} RemoveAllSurvivors(p: seq<Rule>, rules: seq<Rule>)
    ensures RemoveAll(p, rules).0 == Without(p, KeySet(rules))
  {
    if |rules| == 0 {
      assert KeySet(rules) == {};
      KeepAll(p, KeyNotIn({}));
    } else {
      var front := rules[..|rules| - 1];
      var rule := rules[|rules| - 1];
      RemoveAllSurvivors(p, front);
      LastKeys(rules);
      var prev := RemoveAll(p, front);
      WithoutWithout(p, KeySet(front), {Key(rule)});
      if Key(rule) !in KeySet(prev.0) {
        WithoutAbsent(prev.0, Key(rule));
      }
    }
  }

  /**
   * The affected rules are input rules, one per stored key named by the
   * input, with distinct keys.
   */
  lemma {:induction false} RemoveAllAffected(p: seq<Rule>, rules: seq<Rule>)
    ensures var r := RemoveAll(p, rules);
      && KeySet(r.1) == KeySet(rules) * KeySet(p)
      && DistinctKeys(r.1)
      && (forall x :: x in r.1 ==> x in rules)
  {
    if |rules| > 0 {
      var front := rules[..|rules| - 1];
      var rule := rules[|rules| - 1];
      RemoveAllAffected(p, front);
      RemoveAllSurvivors(p, front);
      LastKeys(rules);
      var prev := RemoveAll(p, front);
      WithoutKeys(p, KeySet(front));
      if Key(rule) in KeySet(prev.0) {
        assert RemoveAll(p, rules).1 == prev.1 + [rule];
        KeySetConcat(prev.1, [rule]);
        assert KeySet([rule]) == {Key(rule)} by {
          assert [rule][0] == rule;
        }
        AppendDistinct(prev.1, rule);
      }
      forall x | x in RemoveAll(p, rules).1 ensures x in rules {
        assert x in prev.1 || x == rule;
        if x in prev.1 {
          assert x in front;
        }
      }
    }
  }

  lemma KeySetEmpty(p: seq<Rule>)
    ensures KeySet(p) == {} <==> |p| == 0
  {
    if |p| > 0 {
      assert Key(p[0]) in KeySet(p);
    }
  }

  /**
   * Something is reported exactly when some input rule is stored; with
   * distinct keys, what is reported and what survives add up to the list.
   */
  lemma RemoveAllReport(p: seq<Rule>, rules: seq<Rule>)
    ensures |RemoveAll(p, rules).1| > 0 <==> KeySet(rules) * KeySet(p) != {}
    ensures DistinctKeys(p) ==> |RemoveAll(p, rules).0| + |RemoveAll(p, rules).1| == |p|
  {
    RemoveAllAffected(p, rules);
    KeySetEmpty(RemoveAll(p, rules).1);
    if DistinctKeys(p) {
      RemoveAllCount(p, rules);
    }
  }

  /** With distinct keys, the survivors and the reported rules split the list's keys. */
  lemma RemoveAllCount(p: seq<Rule>, rules: seq<Rule>)
    requires DistinctKeys(p)
    ensures |RemoveAll(p, rules).0| + |RemoveAll(p, rules).1| == |p|
  {
    var r := RemoveAll(p, rules);
    var all, gone := KeySet(p), KeySet(rules);
    RemoveAllAffected(p, rules);
    RemoveAllSurvivors(p, rules);
    WithoutKeys(p, gone);
    KeepDistinct(p, KeyNotIn(gone));
    assert DistinctKeys(r.0) && KeySet(r.0) == all - gone;
    assert KeySet(r.1) == gone * all;
    KeySetSize(p);
    KeySetSize(r.0);
    KeySetSize(r.1);
    SplitSize(all, gone);
  }

  /** A set is as large as its part outside `b` and its part inside `b` together. */
  lemma SplitSize<T>(a: set<T>, b: set<T>)
    ensures |a| == |a - b| + |b * a|
  {
    assert a == (a - b) + (b * a);
    assert (a - b) * (b * a) == {};
  }

  // Single removal.

  /** The last rule moves into slot `i` and the list loses its last slot. */
  function SwapRemove(p: seq<Rule>, i: int): (r: seq<Rule>)
    requires 0 <= i < |p|
    ensures |r| == |p| - 1
    ensures multiset(r) == multiset(p) - multiset{p[i]}
    ensures forall j :: 0 <= j < |r| && j != i ==> r[j] == p[j]
    ensures i < |r| ==> r[i] == p[|p| - 1]
  {
    SwapRemoveMultiset(p, i);
    p[i := p[|p| - 1]][..|p| - 1]
  }

  lemma SwapRemoveMultiset(p: seq<Rule>, i: int)
    requires 0 <= i < |p|
    ensures multiset(p[i := p[|p| - 1]][..|p| - 1]) == multiset(p) - multiset{p[i]}
  {
    var r := p[i := p[|p| - 1]][..|p| - 1];
    assert p == p[..|p| - 1] + [p[|p| - 1]];
    if i < |p| - 1 {
      assert p[..|p| - 1] == p[..i] + [p[i]] + p[i + 1..|p| - 1];
      assert r == p[..i] + [p[|p| - 1]] + p[i + 1..|p| - 1];
    } else {
      assert r == p[..|p| - 1];
    }
  }

  /** The swap removal of the rule at `i`, with its key deleted and the moved rule re-keyed, stays indexed. */
  lemma SwapRemoveIndexed(p: seq<Rule>, m: map<string, int>, i: int)
    requires Indexed(p, m) && 0 <= i < |p|
    ensures var last := |p| - 1;
      var m' := if i != last then m[Key(p[last]) := i] else m;
      Indexed(SwapRemove(p, i), m' - {Key(p[i])})
  {
    var last := |p| - 1;
    var m' := if i != last then m[Key(p[last]) := i] else m;
    var r, n := SwapRemove(p, i), m' - {Key(p[i])};
    forall j | 0 <= j < |r| ensures Key(r[j]) in n && n[Key(r[j])] == j {
      if j == i {
        assert Key(p[last]) != Key(p[i]);
      } else {
        assert Key(p[j]) != Key(p[i]) && Key(p[j]) != Key(p[last]);
      }
    }
    forall k | k in n ensures 0 <= n[k] < |r| && Key(r[n[k]]) == k {
      if k != Key(p[last]) {
        assert m[k] != last && m[k] != i;
      }
    }
  }
}
