/**
 * Order-preserving selection of rules: the field filter shared by the
 * filtered get and remove operations, and removal of rules by key.
 */
module Selection {
  import opened RuleKeys

  /** The rules of `p` that `keep` accepts, in their original order. */
  function Keep(p: seq<Rule>, keep: Rule -> bool): (r: seq<Rule>)
    ensures |r| <= |p|
  {
    if |p| == 0 then []
    else Keep(p[..|p| - 1], keep) + (if keep(p[|p| - 1]) then [p[|p| - 1]] else [])
  }

  lemma {:induction false} KeepMembership(p: seq<Rule>, keep: Rule -> bool, x: Rule)
    ensures x in Keep(p, keep) <==> x in p && keep(x)
  {
    if |p| > 0 {
      var q := p[..|p| - 1];
      KeepMembership(q, keep, x);
      assert p == q + [p[|p| - 1]];
    }
  }

  /** Selection distributes over concatenation: it never reorders rules. */
  lemma {:induction false} KeepConcat(a: seq<Rule>, b: seq<Rule>, keep: Rule -> bool)
    ensures Keep(a + b, keep) == Keep(a, keep) + Keep(b, keep)
  {
    if |b| > 0 {
      var b' := b[..|b| - 1];
      assert (a + b)[..|a + b| - 1] == a + b';
      KeepConcat(a, b', keep);
    } else {
      assert a + b == a;
    }
  }

  lemma {:induction false} KeepAll(p: seq<Rule>, keep: Rule -> bool)
    requires forall i :: 0 <= i < |p| ==> keep(p[i])
    ensures Keep(p, keep) == p
  {
    if |p| > 0 {
      KeepAll(p[..|p| - 1], keep);
      assert p == p[..|p| - 1] + [p[|p| - 1]];
    }
  }

  /** A selection as long as its input kept everything. */
  lemma {:induction false} KeepFull(p: seq<Rule>, keep: Rule -> bool)
    requires |Keep(p, keep)| == |p|
    ensures Keep(p, keep) == p
  {
    if |p| > 0 {
      var q := p[..|p| - 1];
      if keep(p[|p| - 1]) {
        KeepFull(q, keep);
        assert p == q + [p[|p| - 1]];
      } else {
        assert |Keep(q, keep)| <= |q|;
      }
    }
  }

  /** With distinct keys, the rule at `n` has a key no earlier selected rule has. */
  lemma KeepNewKey(p: seq<Rule>, n: int, keep: Rule -> bool)
    requires DistinctKeys(p) && 0 <= n < |p|
    ensures Key(p[n]) !in KeySet(Keep(p[..n], keep))
  {
    assert DistinctKeys(p[..n]);
    KeepDistinct(p[..n], keep);
    assert Key(p[n]) !in KeySet(p[..n]);
  }

  /** Selecting from one more rule of `p` adds that rule when it is kept. */
  lemma KeepStep(p: seq<Rule>, n: int, keep: Rule -> bool)
    requires 0 <= n < |p|
    ensures Keep(p[..n + 1], keep) == Keep(p[..n], keep) + (if keep(p[n]) then [p[n]] else [])
  {
    assert p[..n + 1][..n] == p[..n] && p[..n + 1][n] == p[n];
  }

  /**
   * After the first `n` rules of `p`: `kept` holds those the filter does not
   * match and `removed` those it matches, both in order, and with distinct
   * keys `m` indexes `kept`.
   */
  ghost predicate SplitUpTo(p: seq<Rule>, n: int, kept: seq<Rule>, removed: seq<Rule>, m: map<string, int>,
                            fieldIndex: int, fieldValues: seq<string>)
  {
    && 0 <= n <= |p|
    && kept == Keep(p[..n], NotMatching(fieldIndex, fieldValues))
    && removed == Keep(p[..n], Matching(fieldIndex, fieldValues))
    && (DistinctKeys(p) ==> Indexed(kept, m))
  }

  lemma SplitStart(p: seq<Rule>, fieldIndex: int, fieldValues: seq<string>)
    ensures SplitUpTo(p, 0, [], [], map[], fieldIndex, fieldValues)
  {
  }

  /** A rule the filter does not match is kept and indexed at the end. */
  lemma SplitKept(p: seq<Rule>, n: int, kept: seq<Rule>, removed: seq<Rule>, m: map<string, int>,
                  fieldIndex: int, fieldValues: seq<string>)
    requires SplitUpTo(p, n, kept, removed, m, fieldIndex, fieldValues) && n < |p|
    requires !Matches(p[n], fieldIndex, fieldValues)
    ensures SplitUpTo(p, n + 1, kept + [p[n]], removed, m[Key(p[n]) := |kept|], fieldIndex, fieldValues)
  {
    KeepStep(p, n, Matching(fieldIndex, fieldValues));
    KeepStep(p, n, NotMatching(fieldIndex, fieldValues));
    if DistinctKeys(p) {
      KeepNewKey(p, n, NotMatching(fieldIndex, fieldValues));
      IndexedKeys(kept, m);
      AppendIndexed(kept, m, p[n]);
    }
  }

  /** A rule the filter matches is removed. */
  lemma SplitMatched(p: seq<Rule>, n: int, kept: seq<Rule>, removed: seq<Rule>, m: map<string, int>,
                     fieldIndex: int, fieldValues: seq<string>)
    requires SplitUpTo(p, n, kept, removed, m, fieldIndex, fieldValues) && n < |p|
    requires Matches(p[n], fieldIndex, fieldValues)
    ensures SplitUpTo(p, n + 1, kept, removed + [p[n]], m, fieldIndex, fieldValues)
  {
    KeepStep(p, n, Matching(fieldIndex, fieldValues));
    KeepStep(p, n, NotMatching(fieldIndex, fieldValues));
  }

  /** What one predicate keeps and its complement keeps make up the list. */
  lemma {:induction false} KeepPartition(p: seq<Rule>, keep: Rule -> bool, drop: Rule -> bool)
    requires forall x :: drop(x) == !keep(x)
    ensures multiset(Keep(p, keep)) + multiset(Keep(p, drop)) == multiset(p)
    ensures |Keep(p, keep)| + |Keep(p, drop)| == |p|
  {
    if |p| > 0 {
      var q := p[..|p| - 1];
      KeepPartition(q, keep, drop);
      assert p == q + [p[|p| - 1]];
    }
  }

  /** Selecting twice is selecting by the conjunction. */
  lemma {:induction false} KeepKeep(p: seq<Rule>, f: Rule -> bool, g: Rule -> bool, h: Rule -> bool)
    requires forall x :: h(x) == (f(x) && g(x))
    ensures Keep(Keep(p, f), g) == Keep(p, h)
  {
    if |p| > 0 {
      var q := p[..|p| - 1];
      var x := p[|p| - 1];
      KeepKeep(q, f, g, h);
      assert p[..|p| - 1] == q;
      if f(x) {
        assert Keep(p, f) == Keep(q, f) + [x];
        KeepConcat(Keep(q, f), [x], g);
        assert Keep([x], g) == Keep([], g) + (if g(x) then [x] else []);
      } else {
        assert Keep(p, f) == Keep(q, f);
      }
    }
  }

  lemma {:induction false} KeepDistinct(p: seq<Rule>, keep: Rule -> bool)
    requires DistinctKeys(p)
    ensures DistinctKeys(Keep(p, keep))
    ensures KeySet(Keep(p, keep)) <= KeySet(p)
  {
    if |p| > 0 {
      var q := p[..|p| - 1];
      var x := p[|p| - 1];
      assert DistinctKeys(q);
      KeepDistinct(q, keep);
      forall k | k in KeySet(Keep(p, keep)) ensures k in KeySet(p) {
        var j :| 0 <= j < |Keep(p, keep)| && Key(Keep(p, keep)[j]) == k;
        KeepMembership(p, keep, Keep(p, keep)[j]);
      }
      if keep(x) {
        assert Key(x) !in KeySet(q);
        var r := Keep(q, keep);
        assert Keep(p, keep) == r + [x];
        forall i, j | 0 <= i < j < |r| + 1 ensures Key((r + [x])[i]) != Key((r + [x])[j]) {
          if j == |r| {
            assert Key(r[i]) in KeySet(r);
          }
        }
      }
    }
  }

  // The field filter.

  /**
   * The comparison loop reads no missing column: every non-empty filter value
   * it reaches, that is every one after which all earlier non-empty values
   * matched, names an existing column.
   */
  predicate MatchSafe(rule: Rule, fieldIndex: int, fieldValues: seq<string>)
  {
    forall i :: 0 <= i < |fieldValues| && fieldValues[i] != "" && MatchesUpTo(rule, fieldIndex, fieldValues, i) ==>
      0 <= fieldIndex + i < |rule|
  }

  /** The non-empty filter values before position `n` all equal their columns. */
  predicate MatchesUpTo(rule: Rule, fieldIndex: int, fieldValues: seq<string>, n: int)
  {
    forall i :: 0 <= i < n && i < |fieldValues| && fieldValues[i] != "" ==>
      0 <= fieldIndex + i < |rule| && rule[fieldIndex + i] == fieldValues[i]
  }

  /** A rule matches when each non-empty filter value equals its column; "" matches anything. */
  predicate Matches(rule: Rule, fieldIndex: int, fieldValues: seq<string>)
  {
    MatchesUpTo(rule, fieldIndex, fieldValues, |fieldValues|)
  }

  /** The comparison loop for one rule, stopping at the first mismatch. */
  method MatchRule(rule: Rule, fieldIndex: int, fieldValues: seq<string>) returns (matched: bool)
    requires MatchSafe(rule, fieldIndex, fieldValues)
    ensures matched <==> Matches(rule, fieldIndex, fieldValues)
  {
    matched := true;
    for i := 0 to |fieldValues|
      invariant MatchesUpTo(rule, fieldIndex, fieldValues, i)
    {
      if fieldValues[i] != "" && rule[fieldIndex + i] != fieldValues[i] {
        matched := false;
        break;
      }
    }
  }

  function Matching(fieldIndex: int, fieldValues: seq<string>): Rule -> bool
  {
    rule => Matches(rule, fieldIndex, fieldValues)
  }

  function NotMatching(fieldIndex: int, fieldValues: seq<string>): Rule -> bool
  {
    rule => !Matches(rule, fieldIndex, fieldValues)
  }

  // Removal by key.

  function KeyNotIn(keys: set<string>): Rule -> bool
  {
    rule => Key(rule) !in keys
  }

  /** The rules of `p` whose key is not in `keys`, in order. */
  function Without(p: seq<Rule>, keys: set<string>): seq<Rule>
  {
    Keep(p, KeyNotIn(keys))
  }

  lemma WithoutKeys(p: seq<Rule>, keys: set<string>)
    ensures forall x :: x in Without(p, keys) <==> x in p && Key(x) !in keys
    ensures KeySet(Without(p, keys)) == KeySet(p) - keys
  {
    forall x ensures x in Without(p, keys) <==> x in p && Key(x) !in keys {
      KeepMembership(p, KeyNotIn(keys), x);
    }
    var w := Without(p, keys);
    forall k | k in KeySet(w) ensures k in KeySet(p) - keys {
      var j :| 0 <= j < |w| && Key(w[j]) == k;
      assert w[j] in w;
    }
    forall k | k in KeySet(p) - keys ensures k in KeySet(w) {
      var j :| 0 <= j < |p| && Key(p[j]) == k;
      assert p[j] in p;
      assert p[j] in w;
      var i :| 0 <= i < |w| && w[i] == p[j];
    }
  }

  /** With distinct keys, cutting out slot `idx` removes exactly that rule's key. */
  lemma WithoutSplice(p: seq<Rule>, idx: int)
    requires DistinctKeys(p) && 0 <= idx < |p|
    ensures p[..idx] + p[idx + 1..] == Without(p, {Key(p[idx])})
  {
    var f := KeyNotIn({Key(p[idx])});
    var a, b := p[..idx], p[idx + 1..];
    assert p == (a + [p[idx]]) + b;
    assert Keep([p[idx]], f) == [] by {
      assert [p[idx]][..0] == [];
    }
    KeepConcat(a, [p[idx]], f);
    KeepConcat(a + [p[idx]], b, f);
    forall i | 0 <= i < |a| ensures f(a[i]) {
      assert a[i] == p[i];
    }
    forall i | 0 <= i < |b| ensures f(b[i]) {
      assert b[i] == p[idx + 1 + i];
    }
    KeepAll(a, f);
    KeepAll(b, f);
  }

  lemma WithoutAbsent(p: seq<Rule>, k: string)
    requires k !in KeySet(p)
    ensures Without(p, {k}) == p
  {
    KeepAll(p, KeyNotIn({k}));
  }

  lemma WithoutWithout(p: seq<Rule>, a: set<string>, b: set<string>)
    ensures Without(Without(p, a), b) == Without(p, a + b)
  {
    KeepKeep(p, KeyNotIn(a), KeyNotIn(b), KeyNotIn(a + b));
  }
}
