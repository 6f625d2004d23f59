/**
 * Rules, their lookup keys, and the index invariant that ties an ordered
 * rule list to the map from each rule's key to its position.
 */
module RuleKeys {

  /** A policy rule: its field values in declaration order. */
  type Rule = seq<string>

  /** The separator placed between the fields of a rule to form its key. */
  const DefaultSep: string := ","

  /** Go's strings.Join: the elements with `sep` between consecutive ones. */
  function Join(elems: seq<string>, sep: string): string
  {
    if |elems| == 0 then ""
    else if |elems| == 1 then elems[0]
    else elems[0] + sep + Join(elems[1..], sep)
  }

  /** The key under which a rule is indexed. */
  function Key(rule: Rule): string
  {
    Join(rule, DefaultSep)
  }

  predicate NoSep(field: string)
  {
    ',' !in field
  }

  /** A rule the key identifies: at least one field, and no field holds the separator. */
  predicate WellFormed(rule: Rule)
  {
    |rule| > 0 && forall i :: 0 <= i < |rule| ==> NoSep(rule[i])
  }

  lemma SeparatorSplit(x: string, s: string, y: string, t: string)
    requires NoSep(x) && NoSep(y)
    requires x + DefaultSep + s == y + DefaultSep + t
    ensures x == y && s == t
  {
    var a, b := x + DefaultSep + s, y + DefaultSep + t;
    assert a[|x|] == ',' && b[|y|] == ',';
    assert forall j :: 0 <= j < |x| ==> a[j] == x[j] && x[j] in x;
    assert forall j :: 0 <= j < |y| ==> b[j] == y[j] && y[j] in y;
    assert |x| == |y|;
    assert x == a[..|x|] && y == b[..|y|];
    assert s == a[|x| + 1..] && t == b[|y| + 1..];
  }

  /** A key holds the separator exactly when the rule has more than one field. */
  lemma {:induction false} SeparatorInKey(rule: Rule)
    requires WellFormed(rule)
    ensures (',' in Key(rule)) <==> |rule| > 1
  {
    if |rule| > 1 {
      assert Key(rule)[|rule[0]|] == ',';
    } else {
      assert Key(rule) == rule[0] && NoSep(rule[0]);
    }
  }

  /** On well-formed rules the key is injective. */
  lemma {:induction false} KeyInjective(a: Rule, b: Rule)
    requires WellFormed(a) && WellFormed(b)
    ensures Key(a) == Key(b) <==> a == b
  {
    SeparatorInKey(a);
    SeparatorInKey(b);
    if |a| > 1 && |b| > 1 && Key(a) == Key(b) {
      assert NoSep(a[0]) && NoSep(b[0]);
      SeparatorSplit(a[0], Join(a[1..], DefaultSep), b[0], Join(b[1..], DefaultSep));
      assert WellFormed(a[1..]) && WellFormed(b[1..]);
      KeyInjective(a[1..], b[1..]);
      assert a == [a[0]] + a[1..] && b == [b[0]] + b[1..];
    }
  }

  /** Without the well-formedness condition two different rules can share a key. */
  lemma KeyCollision()
    ensures ["a,b"] != ["a", "b"] && Key(["a,b"]) == Key(["a", "b"])
  {
    assert ["a,b"][0] != ["a", "b"][0];
    assert Key(["b"]) == "b";
  }

  /** The keys of all rules of a list. */
  function KeySet(p: seq<Rule>): set<string>
  {
    set i | 0 <= i < |p| :: Key(p[i])
  }

  predicate DistinctKeys(p: seq<Rule>)
  {
    forall i, j :: 0 <= i < j < |p| ==> Key(p[i]) != Key(p[j])
  }

  /**
   * The index invariant: every rule's key maps to the rule's position,
   * and the map holds no other entry.
   */
  ghost predicate Indexed(p: seq<Rule>, m: map<string, int>)
  {
    && (forall i :: 0 <= i < |p| ==> Key(p[i]) in m && m[Key(p[i])] == i)
    && (forall k :: k in m ==> 0 <= m[k] < |p| && Key(p[m[k]]) == k)
  }

  lemma IndexedKeys(p: seq<Rule>, m: map<string, int>)
    requires Indexed(p, m)
    ensures DistinctKeys(p)
    ensures m.Keys == KeySet(p)
  {
    forall k | k in m ensures k in KeySet(p) {
      assert Key(p[m[k]]) == k;
    }
  }

  lemma {:induction false} KeySetSize(p: seq<Rule>)
    requires DistinctKeys(p)
    ensures |KeySet(p)| == |p|
  {
    if |p| > 0 {
      var q := p[..|p| - 1];
      assert DistinctKeys(q);
      KeySetSize(q);
      assert KeySet(p) == KeySet(q) + {Key(p[|p| - 1])} by {
        forall i | 0 <= i < |p| ensures Key(p[i]) in KeySet(q) + {Key(p[|p| - 1])} {
          if i < |p| - 1 {
            assert p[i] == q[i];
          }
        }
      }
      assert Key(p[|p| - 1]) !in KeySet(q);
    }
  }

  /** An indexed list has exactly as many map entries as rules. */
  lemma IndexedSize(p: seq<Rule>, m: map<string, int>)
    requires Indexed(p, m)
    ensures |m| == |p|
  {
    IndexedKeys(p, m);
    KeySetSize(p);
    assert |m| == |m.Keys|;
  }

  /** The rule list determines its index. */
  lemma IndexedUnique(p: seq<Rule>, m1: map<string, int>, m2: map<string, int>)
    requires Indexed(p, m1) && Indexed(p, m2)
    ensures m1 == m2
  {
    IndexedKeys(p, m1);
    IndexedKeys(p, m2);
    forall k | k in m1 ensures m1[k] == m2[k] {
      var i := m1[k];
      assert Key(p[i]) == k;
    }
  }

  /** A list with two rules of one key has no index at all. */
  lemma DuplicateBreaksIndex(p: seq<Rule>, m: map<string, int>)
    requires !DistinctKeys(p)
    ensures !Indexed(p, m)
  {
    if Indexed(p, m) {
      IndexedKeys(p, m);
    }
  }

  /** Key membership in the index is membership of the rule in the list. */
  /** In an indexed store, a key is in the map exactly when some stored rule has it. */
  lemma IndexedLookup(p: seq<Rule>, m: map<string, int>, key: string)
    ensures Indexed(p, m) ==> (key in m <==> key in KeySet(p))
  {
    if Indexed(p, m) {
      IndexedKeys(p, m);
    }
  }

  lemma IndexedMembership(p: seq<Rule>, m: map<string, int>, rule: Rule)
    requires Indexed(p, m)
    ensures Key(rule) in m <==> Key(rule) in KeySet(p)
    ensures WellFormed(rule) && (forall i :: 0 <= i < |p| ==> WellFormed(p[i])) ==>
              (Key(rule) in m <==> rule in p)
  {
    IndexedKeys(p, m);
    if WellFormed(rule) && (forall i :: 0 <= i < |p| ==> WellFormed(p[i])) {
      if Key(rule) in m {
        var i := m[Key(rule)];
        KeyInjective(rule, p[i]);
      }
    }
  }

  /**
   * An intermediate state of the re-keying loops: the rules before `i` map
   * to their positions, the rules from `i` on still map to one past theirs,
   * and the map holds no key of a rule not in the list.
   */
  ghost predicate ShiftedFrom(s: seq<Rule>, m: map<string, int>, i: int)
  {
    && 0 <= i <= |s|
    && (forall j :: 0 <= j < i ==> Key(s[j]) in m && m[Key(s[j])] == j)
    && (forall j :: i <= j < |s| ==> Key(s[j]) in m && m[Key(s[j])] == j + 1)
    && m.Keys <= KeySet(s)
  }

  lemma ShiftedFromEnd(s: seq<Rule>, m: map<string, int>)
    ensures ShiftedFrom(s, m, |s|) <==> Indexed(s, m)
  {
    if Indexed(s, m) {
      IndexedKeys(s, m);
    }
  }

  /** Re-keying the rule at `i` to its own position advances the loop. */
  lemma ShiftUp(s: seq<Rule>, m: map<string, int>, i: int)
    requires ShiftedFrom(s, m, i) && i < |s|
    ensures ShiftedFrom(s, m[Key(s[i]) := i], i + 1)
  {
    var m' := m[Key(s[i]) := i];
    forall j | 0 <= j < |s| && j != i ensures Key(s[j]) != Key(s[i]) {
      assert m[Key(s[i])] == i + 1;
    }
  }

  /** Moving the rule before `i` one slot right and adding one to its entry. */
  lemma ShiftDown(s: seq<Rule>, m: map<string, int>, i: int)
    requires ShiftedFrom(s, m, i) && 0 < i
    ensures ShiftedFrom(s, m[Key(s[i - 1]) := i], i - 1)
  {
    forall j | 0 <= j < |s| && j != i - 1 ensures Key(s[j]) != Key(s[i - 1]) {
      assert m[Key(s[i - 1])] == i - 1;
    }
  }

  /** Cutting the rule at `idx` out of an indexed list, and its key out of the map. */
  lemma SpliceShifted(p: seq<Rule>, m: map<string, int>, idx: int)
    requires Indexed(p, m) && 0 <= idx < |p|
    ensures ShiftedFrom(p[..idx] + p[idx + 1..], m - {Key(p[idx])}, idx)
  {
    var q, m' := p[..idx] + p[idx + 1..], m - {Key(p[idx])};
    assert forall j :: 0 <= j < idx ==> q[j] == p[j];
    assert forall j :: idx <= j < |q| ==> q[j] == p[j + 1];
    forall k | k in m' ensures k in KeySet(q) {
      var j := m[k];
      assert Key(p[j]) == k && j != idx;
      if j < idx {
        assert Key(q[j]) == k;
      } else {
        assert Key(q[j - 1]) == k;
      }
    }
  }

  /** Placing a rule of a fresh key into the slot `i` that the shifting loop freed. */
  lemma ShiftInsert(p: seq<Rule>, m: map<string, int>, i: int, rule: Rule)
    requires ShiftedFrom(p, m, i)
    requires Key(rule) !in KeySet(p)
    ensures Indexed(p[..i] + [rule] + p[i..], m[Key(rule) := i])
  {
    var q, m' := p[..i] + [rule] + p[i..], m[Key(rule) := i];
    assert forall j :: 0 <= j < i ==> q[j] == p[j];
    assert q[i] == rule;
    assert forall j :: i < j < |q| ==> q[j] == p[j - 1];
    forall j | 0 <= j < |q| ensures Key(q[j]) in m' && m'[Key(q[j])] == j {
      if j < i {
        assert Key(p[j]) in KeySet(p);
      } else if j > i {
        assert Key(p[j - 1]) in KeySet(p);
      }
    }
    forall k | k in m' ensures 0 <= m'[k] < |q| && Key(q[m'[k]]) == k {
      if k != Key(rule) {
        assert k in KeySet(p);
        var j :| 0 <= j < |p| && Key(p[j]) == k;
        if j >= i {
          assert q[j + 1] == p[j];
        }
      }
    }
  }

  /**
   * The state of the priority insertion's shifting loop for a rule of a
   * fresh key: the rule was keyed to the end slot, the rules before `i` are
   * keyed to their positions, and those from `i` on to one past theirs.
   */
  ghost predicate ShiftedWith(p: seq<Rule>, rule: Rule, m: map<string, int>, i: int)
  {
    && Key(rule) !in KeySet(p)
    && Key(rule) in m && m[Key(rule)] == |p|
    && ShiftedFrom(p, m - {Key(rule)}, i)
  }

  lemma ShiftedWithStart(p: seq<Rule>, m: map<string, int>, rule: Rule)
    requires Indexed(p, m) && Key(rule) !in m
    ensures ShiftedWith(p, rule, m[Key(rule) := |p|], |p|)
  {
    IndexedKeys(p, m);
    ShiftedFromEnd(p, m);
    assert m[Key(rule) := |p|] - {Key(rule)} == m;
  }

  /** A map lookup that yields 0 for a missing key, as Go's index expression on a map does. */
  function GetOrZero(m: map<string, int>, k: string): int
  {
    if k in m then m[k] else 0
  }

  /** Moving the rule before `i` one slot right and adding one to its entry. */
  lemma ShiftedWithDown(p: seq<Rule>, rule: Rule, m: map<string, int>, i: int)
    requires ShiftedWith(p, rule, m, i) && 0 < i
    ensures ShiftedWith(p, rule, m[Key(p[i - 1]) := GetOrZero(m, Key(p[i - 1])) + 1], i - 1)
  {
    var k := Key(p[i - 1]);
    assert k in KeySet(p);
    assert GetOrZero(m, k) + 1 == i;
    ShiftDown(p, m - {Key(rule)}, i);
    assert (m - {Key(rule)})[k := i] == m[k := i] - {Key(rule)};
  }

  /** Writing the rule into the freed slot `i` and keying it there completes the index. */
  lemma ShiftedWithInsert(p: seq<Rule>, rule: Rule, m: map<string, int>, i: int)
    requires ShiftedWith(p, rule, m, i)
    ensures Indexed(p[..i] + [rule] + p[i..], m[Key(rule) := i])
  {
    ShiftInsert(p, m - {Key(rule)}, i, rule);
    assert (m - {Key(rule)})[Key(rule) := i] == m[Key(rule) := i];
  }

  /** Appending a rule of a fresh key to an indexed list, keyed to the new last slot. */
  lemma AppendIndexed(p: seq<Rule>, m: map<string, int>, rule: Rule)
    requires Indexed(p, m) && Key(rule) !in m
    ensures Indexed(p + [rule], m[Key(rule) := |p|])
  {
    IndexedKeys(p, m);
    ShiftedFromEnd(p, m);
    ShiftInsert(p, m, |p|, rule);
    assert p[..|p|] + [rule] + p[|p|..] == p + [rule];
  }

  /** Writing a rule into slot `i` and re-keying that slot. */
  lemma ReplaceIndexed(p: seq<Rule>, m: map<string, int>, i: int, rule: Rule)
    requires Indexed(p, m) && 0 <= i < |p|
    requires Key(rule) == Key(p[i]) || Key(rule) !in m
    ensures Indexed(p[i := rule], (m - {Key(p[i])})[Key(rule) := i])
  {
    var q, m' := p[i := rule], (m - {Key(p[i])})[Key(rule) := i];
    forall j | 0 <= j < |q| ensures Key(q[j]) in m' && m'[Key(q[j])] == j {
      if j != i {
        assert Key(p[j]) != Key(p[i]);
        assert Key(p[j]) != Key(rule);
      }
    }
  }
}
