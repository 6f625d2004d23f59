/**
 * Priority-ordered insertion: in section "p", when the rule type declares a
 * priority field, a rule whose priority parses is placed after a backward
 * scan past every trailing rule of strictly greater priority. The integer
 * parser is a parameter `parse`; the store passes Strconv.Atoi.
 */
module Priority {
  import opened Wrappers
  import opened RuleKeys

  /** The field name whose column, when declared, orders the rules. */
  const PriorityIndex: string := "priority"

  /** The rule's priority column parses to a value strictly above `v`. */
  predicate Above(rule: Rule, col: nat, v: int, parse: string -> Option<int>)
    requires col < |rule|
  {
    match parse(rule[col])
    case Some(x) => x > v
    case None => false
  }

  /** Every rule the backward scan reads, from the end to where it stops, has the column. */
  predicate ScanSafe(p: seq<Rule>, col: nat, v: int, parse: string -> Option<int>)
  {
    || |p| == 0
    || (&& col < |p[|p| - 1]|
        && (Above(p[|p| - 1], col, v, parse) ==> ScanSafe(p[..|p| - 1], col, v, parse)))
  }

  /** Every rule of `p` has the column `col` (when there is one). */
  predicate HasColumn(p: seq<Rule>, col: Option<int>)
  {
    col.Some? ==> 0 <= col.value && forall j :: 0 <= j < |p| ==> col.value < |p[j]|
  }

  lemma {:induction false} HasColumnScanSafe(p: seq<Rule>, col: nat, v: int, parse: string -> Option<int>)
    requires HasColumn(p, Some(col))
    ensures ScanSafe(p, col, v, parse)
  {
    if |p| > 0 {
      HasColumnScanSafe(p[..|p| - 1], col, v, parse);
    }
  }

  /**
   * Where the backward scan stops: every rule from there on is strictly above
   * `v`, and the rule just before (if any) is not.
   */
  function InsertPos(p: seq<Rule>, col: nat, v: int, parse: string -> Option<int>): (i: nat)
    requires ScanSafe(p, col, v, parse)
    ensures i <= |p|
    ensures forall j :: i <= j < |p| ==> col < |p[j]| && Above(p[j], col, v, parse)
    ensures i > 0 ==> col < |p[i - 1]| && !Above(p[i - 1], col, v, parse)
  {
    if |p| == 0 then 0
    else if Above(p[|p| - 1], col, v, parse) then InsertPos(p[..|p| - 1], col, v, parse)
    else |p|
  }

  /** Every rule from `i` on has the column and is strictly above `v`: the scan has passed them. */
  predicate AllAbove(p: seq<Rule>, i: int, col: nat, v: int, parse: string -> Option<int>)
  {
    forall j :: 0 <= i <= j < |p| ==> col < |p[j]| && Above(p[j], col, v, parse)
  }

  /** The scan, having passed every rule from `i` on, may read the rule before `i`. */
  lemma {:induction false} ScanReads(p: seq<Rule>, i: int, col: nat, v: int, parse: string -> Option<int>)
    requires ScanSafe(p, col, v, parse) && 0 < i <= |p| && AllAbove(p, i, col, v, parse)
    ensures col < |p[i - 1]|
  {
    if i < |p| {
      var q := p[..|p| - 1];
      assert AllAbove(q, i, col, v, parse) by {
        assert forall j :: 0 <= j < |q| ==> q[j] == p[j];
      }
      ScanReads(q, i, col, v, parse);
      assert q[i - 1] == p[i - 1];
    }
  }

  /** Where the scan stops is the insertion position. */
  lemma {:induction false} ScanResult(p: seq<Rule>, i: int, col: nat, v: int, parse: string -> Option<int>)
    requires ScanSafe(p, col, v, parse) && 0 <= i <= |p| && AllAbove(p, i, col, v, parse)
    requires i > 0 ==> col < |p[i - 1]| && !Above(p[i - 1], col, v, parse)
    ensures InsertPos(p, col, v, parse) == i
  {
    if i < |p| {
      var q := p[..|p| - 1];
      assert AllAbove(q, i, col, v, parse) by {
        assert forall j :: 0 <= j < |q| ==> q[j] == p[j];
      }
      if i > 0 {
        assert q[i - 1] == p[i - 1];
      }
      ScanResult(q, i, col, v, parse);
    }
  }

  /** What the store demands to place `rule`: the column exists wherever it is read. */
  predicate Insertable(p: seq<Rule>, rule: Rule, col: Option<int>, parse: string -> Option<int>)
  {
    col.Some? ==>
      && 0 <= col.value < |rule|
      && (parse(rule[col.value]).Some? ==> ScanSafe(p, col.value, parse(rule[col.value]).value, parse))
  }

  /**
   * The rule list after adding `rule`: appended when there is no priority
   * column or its priority does not parse, otherwise at the scan's stop.
   */
  function PriorityInsert(p: seq<Rule>, rule: Rule, col: Option<int>, parse: string -> Option<int>): (r: seq<Rule>)
    requires Insertable(p, rule, col, parse)
    ensures multiset(r) == multiset(p) + multiset{rule}
    ensures forall x :: x in r <==> x in p || x == rule
  {
    if col.None? then p + [rule]
    else
      match parse(rule[col.value])
      case None => p + [rule]
      case Some(v) =>
        var i := InsertPos(p, col.value, v, parse);
        assert p == p[..i] + p[i..];
        p[..i] + [rule] + p[i..]
  }

  lemma InsertHasColumn(p: seq<Rule>, rule: Rule, col: Option<int>, parse: string -> Option<int>)
    requires HasColumn(p, col) && HasColumn([rule], col)
    ensures Insertable(p, rule, col, parse)
    ensures HasColumn(PriorityInsert(p, rule, col, parse), col)
  {
    if col.Some? {
      assert col.value < |[rule][0]|;
      if parse(rule[col.value]).Some? {
        HasColumnScanSafe(p, col.value, parse(rule[col.value]).value, parse);
      }
    }
  }

  /**
   * Where the rule goes when its priority parses: after every rule the scan
   * did not pass, and before the trailing rules of strictly greater priority,
   * which keep their order.
   */
  lemma InsertPlacement(p: seq<Rule>, rule: Rule, col: nat, parse: string -> Option<int>)
    requires Insertable(p, rule, Some(col), parse) && parse(rule[col]).Some?
    ensures var v := parse(rule[col]).value;
      var i := InsertPos(p, col, v, parse);
      && PriorityInsert(p, rule, Some(col), parse) == p[..i] + [rule] + p[i..]
      && (forall j :: i <= j < |p| ==> Above(p[j], col, v, parse))
      && (i > 0 ==> !Above(p[i - 1], col, v, parse))
  {
  }

  // The ordering guarantee.

  function Prio(rule: Rule, col: nat, parse: string -> Option<int>): int
    requires col < |rule| && parse(rule[col]).Some?
  {
    parse(rule[col]).value
  }

  /** Every priority parses and the rules are in non-decreasing priority order. */
  predicate SortedByPriority(p: seq<Rule>, col: nat, parse: string -> Option<int>)
  {
    && (forall j :: 0 <= j < |p| ==> col < |p[j]| && parse(p[j][col]).Some?)
    && (forall i, j :: 0 <= i < j < |p| ==> Prio(p[i], col, parse) <= Prio(p[j], col, parse))
  }

  lemma InsertSplit(p: seq<Rule>, rule: Rule, i: nat)
    requires i <= |p|
    ensures var r := p[..i] + [rule] + p[i..];
      && |r| == |p| + 1 && r[i] == rule
      && (forall j :: 0 <= j < i ==> r[j] == p[j])
      && (forall j :: i < j < |r| ==> r[j] == p[j - 1])
  {
  }

  /** Inserting at position `i` of a sorted list, between lower-or-equal and higher priorities. */
  lemma SortedSplice(p: seq<Rule>, rule: Rule, i: nat, col: nat, parse: string -> Option<int>)
    requires SortedByPriority(p, col, parse) && i <= |p|
    requires col < |rule| && parse(rule[col]).Some?
    requires i > 0 ==> Prio(p[i - 1], col, parse) <= Prio(rule, col, parse)
    requires i < |p| ==> Prio(p[i], col, parse) > Prio(rule, col, parse)
    ensures SortedByPriority(p[..i] + [rule] + p[i..], col, parse)
  {
    var r := p[..i] + [rule] + p[i..];
    InsertSplit(p, rule, i);
    var v := Prio(rule, col, parse);
    forall a, b | 0 <= a < b < |r| ensures Prio(r[a], col, parse) <= Prio(r[b], col, parse) {
      if b < i {
        assert Prio(p[a], col, parse) <= Prio(p[b], col, parse);
      } else if a > i {
        assert Prio(p[a - 1], col, parse) <= Prio(p[b - 1], col, parse);
      } else if a == i {
        // the new rule against a later, strictly higher one
        if b - 1 > i {
          assert Prio(p[i], col, parse) <= Prio(p[b - 1], col, parse);
        }
      } else if b == i {
        // an earlier rule, at most the one just before the new rule
        if a < i - 1 {
          assert Prio(p[a], col, parse) <= Prio(p[i - 1], col, parse);
        }
      } else {
        assert Prio(p[a], col, parse) <= Prio(p[b - 1], col, parse);
      }
    }
  }

  /** Inserting a rule of parseable priority into a sorted list keeps it sorted. */
  lemma InsertKeepsOrder(p: seq<Rule>, rule: Rule, col: nat, parse: string -> Option<int>)
    requires SortedByPriority(p, col, parse)
    requires col < |rule| && parse(rule[col]).Some?
    ensures Insertable(p, rule, Some(col), parse)
    ensures SortedByPriority(PriorityInsert(p, rule, Some(col), parse), col, parse)
  {
    var v := Prio(rule, col, parse);
    assert HasColumn(p, Some(col));
    HasColumnScanSafe(p, col, v, parse);
    var i := InsertPos(p, col, v, parse);
    SortedSplice(p, rule, i, col, parse);
  }

  /** Parseable priorities are in order; rules whose priority does not parse are ignored. */
  predicate ParsedInOrder(p: seq<Rule>, col: nat, parse: string -> Option<int>)
    requires HasColumn(p, Some(col))
  {
    forall i, j :: 0 <= i < j < |p| && parse(p[i][col]).Some? && parse(p[j][col]).Some? ==>
      Prio(p[i], col, parse) <= Prio(p[j], col, parse)
  }

  /** Adding priority 2 to [3, x]: the scan stops at once, at x. */
  lemma BarrierInsert(parse: string -> Option<int>)
    requires parse("x") == None && parse("2") == Some(2)
    ensures Insertable([["3"], ["x"]], ["2"], Some(0), parse)
    ensures PriorityInsert([["3"], ["x"]], ["2"], Some(0), parse) == [["3"], ["x"], ["2"]]
  {
    var p, rule := [["3"], ["x"]], ["2"];
    assert p[1][0] == "x" && rule[0] == "2";
    assert InsertPos(p, 0, 2, parse) == 2;
    assert p + [rule] == [["3"], ["x"], ["2"]];
  }

  /** [3, x] is in order and [3, x, 2] is not. */
  lemma BarrierOrder(parse: string -> Option<int>)
    requires parse("3") == Some(3) && parse("x") == None && parse("2") == Some(2)
    ensures HasColumn([["3"], ["x"]], Some(0)) && ParsedInOrder([["3"], ["x"]], 0, parse)
    ensures !ParsedInOrder([["3"], ["x"], ["2"]], 0, parse)
  {
    var p, r := [["3"], ["x"]], [["3"], ["x"], ["2"]];
    assert p[1][0] == "x";
    assert r[0][0] == "3" && r[2][0] == "2";
  }

  /**
   * A rule whose priority does not parse stops the backward scan, so the
   * parseable priorities need not stay in order once such a rule is stored:
   * adding priority 2 to [3, x] gives [3, x, 2].
   */
  lemma UnparsedBarrier(parse: string -> Option<int>)
    requires parse("3") == Some(3) && parse("x") == None && parse("2") == Some(2)
    ensures Insertable([["3"], ["x"]], ["2"], Some(0), parse)
    ensures PriorityInsert([["3"], ["x"]], ["2"], Some(0), parse) == [["3"], ["x"], ["2"]]
    ensures HasColumn([["3"], ["x"]], Some(0)) && ParsedInOrder([["3"], ["x"]], 0, parse)
    ensures !ParsedInOrder([["3"], ["x"], ["2"]], 0, parse)
  {
    BarrierInsert(parse);
    BarrierOrder(parse);
  }
}
