/**
 * The batch update and its rollback, stated on values: the state after the
 * first `n` pairs were applied, and the state the rollback restores from.
 */
module Updates {
  import opened RuleKeys
  import opened Batch

  /**
   * The conditions under which the rollback restores the store exactly: at
   * least as many new rules as old ones; the stored and old rules well formed;
   * the old keys pairwise distinct, and so the new keys; no new key stored
   * or among the old keys.
   */
  predicate BatchUpdateSafe(p: seq<Rule>, m: map<string, int>, olds: seq<Rule>, news: seq<Rule>)
  {
    && |news| >= |olds|
    && (forall i :: 0 <= i < |p| ==> WellFormed(p[i]))
    && (forall j :: 0 <= j < |olds| ==> WellFormed(olds[j]) && Key(news[j]) !in m)
    && (forall j, k :: 0 <= j < k < |olds| ==> Key(olds[j]) != Key(olds[k]) && Key(news[j]) != Key(news[k]))
    && (forall j, k :: 0 <= j < |olds| && 0 <= k < |olds| ==> Key(olds[j]) != Key(news[k]))
  }

  /**
   * The bounds the batch update keeps whether or not the batch is safe:
   * every index entry and every recorded slot is a position of the list,
   * and the recorded pair numbers are below `n`.
   */
  ghost predicate InRange(q: seq<Rule>, m: map<string, int>, modified: map<int, (int, int)>, n: int)
  {
    && (forall k :: k in m ==> 0 <= m[k] < |q|)
    && (forall i :: i in modified ==> 0 <= i < |q| && 0 <= modified[i].0 < n && 0 <= modified[i].1 < n)
  }

  /**
   * After the first `n` pairs of a safe batch: the store is indexed, each old
   * key was stored and its slot now holds the new rule and is recorded as
   * modified, and every slot not recorded holds its original rule.
   */
  ghost predicate UpdatedUpTo(q: seq<Rule>, m: map<string, int>, p0: seq<Rule>, m0: map<string, int>,
                              olds: seq<Rule>, news: seq<Rule>, modified: map<int, (int, int)>, n: int)
  {
    && 0 <= n <= |olds| <= |news|
    && Indexed(p0, m0) && Indexed(q, m) && |q| == |p0|
    && m.Keys == (m0.Keys - KeySet(olds[..n])) + KeySet(news[..n])
    && Recorded(q, p0, m0, olds, news, modified, n)
  }

  /**
   * The record of the first `n` pairs: each old key's original slot is
   * recorded as modified and holds the new rule, and every other slot holds
   * its original rule.
   */
  ghost predicate Recorded(q: seq<Rule>, p0: seq<Rule>, m0: map<string, int>,
                           olds: seq<Rule>, news: seq<Rule>, modified: map<int, (int, int)>, n: int)
    requires 0 <= n <= |olds| <= |news| && |q| == |p0|
  {
    && (forall j :: 0 <= j < n ==> Key(olds[j]) in m0 && m0[Key(olds[j])] in modified)
    && (forall i :: i in modified ==>
          && 0 <= modified[i].0 < n && modified[i].1 == modified[i].0
          && Key(olds[modified[i].0]) in m0 && m0[Key(olds[modified[i].0])] == i
          && 0 <= i < |q| && q[i] == news[modified[i].0])
    && (forall i :: 0 <= i < |p0| && i !in modified ==> q[i] == p0[i])
  }

  /**
   * Ready for the rollback: both lists indexed, every recorded slot holds a
   * new rule of an unstored key where the original held the old rule, and
   * every other slot holds its original rule.
   */
  ghost predicate Restorable(q: seq<Rule>, m: map<string, int>, p0: seq<Rule>, m0: map<string, int>,
                             olds: seq<Rule>, news: seq<Rule>, pending: map<int, (int, int)>)
  {
    && Indexed(p0, m0) && Indexed(q, m) && |q| == |p0|
    && (forall i :: i in pending ==>
          && 0 <= i < |p0| && 0 <= pending[i].0 < |olds| && 0 <= pending[i].1 < |news|
          && p0[i] == olds[pending[i].0] && q[i] == news[pending[i].1]
          && Key(news[pending[i].1]) !in m0)
    && (forall i :: 0 <= i < |p0| && i !in pending ==> q[i] == p0[i])
  }

  /** Every index entry is a position of the list. */
  predicate InBounds(p: seq<Rule>, m: map<string, int>)
  {
    forall k :: k in m ==> 0 <= m[k] < |p|
  }

  /**
   * The update loop over the first `n` pairs, for any batch: a stored old
   * key hands its slot to the new rule, the new key takes the slot and the
   * slot records the pair's number. The loop stops at the first missing old
   * key, so a missing key leaves the state as it is (see `Reaches`).
   */
  function Run(p: seq<Rule>, m: map<string, int>, olds: seq<Rule>, news: seq<Rule>, n: int)
    : (r: (seq<Rule>, map<string, int>, map<int, (int, int)>))
    requires 0 <= n <= |olds| <= |news| && InBounds(p, m)
    ensures |r.0| == |p| && InBounds(r.0, r.1)
    ensures forall i :: i in r.2 ==> 0 <= i < |p| && 0 <= r.2[i].0 < n && r.2[i].1 == r.2[i].0
    decreases n
  {
    if n == 0 then (p, m, map[])
    else
      var prev := Run(p, m, olds, news, n - 1);
      var oldKey := Key(olds[n - 1]);
      if oldKey in prev.1 then
        var index := prev.1[oldKey];
        (prev.0[index := news[n - 1]], (prev.1 - {oldKey})[Key(news[n - 1]) := index], prev.2[index := (n - 1, n - 1)])
      else prev
  }

  /** The loop gets past the first `n` pairs: each of their old keys is stored when its turn comes. */
  predicate Reaches(p: seq<Rule>, m: map<string, int>, olds: seq<Rule>, news: seq<Rule>, n: int)
    requires 0 <= n <= |olds| <= |news| && InBounds(p, m)
    decreases n
  {
    n == 0 || (Reaches(p, m, olds, news, n - 1) && Key(olds[n - 1]) in Run(p, m, olds, news, n - 1).1)
  }

  /** Getting past `n` pairs means getting past every shorter prefix. */
  lemma {:induction false} ReachesPrefix(p: seq<Rule>, m: map<string, int>, olds: seq<Rule>, news: seq<Rule>, j: int, n: int)
    requires 0 <= j <= n <= |olds| <= |news| && InBounds(p, m) && Reaches(p, m, olds, news, n)
    ensures Reaches(p, m, olds, news, j)
    decreases n - j
  {
    if j < n {
      ReachesPrefix(p, m, olds, news, j, n - 1);
    }
  }

  /** A pair whose old key is missing when its turn comes stops the loop before the end. */
  lemma ReachesMissing(p: seq<Rule>, m: map<string, int>, olds: seq<Rule>, news: seq<Rule>, n: int)
    requires 0 <= n < |olds| <= |news| && InBounds(p, m)
    requires Key(olds[n]) !in Run(p, m, olds, news, n).1
    ensures !Reaches(p, m, olds, news, |olds|)
  {
    if Reaches(p, m, olds, news, |olds|) {
      ReachesPrefix(p, m, olds, news, n + 1, |olds|);
    }
  }

  /** One more pair whose old key is stored: the loop gets one pair further, in the way `Run` says. */
  lemma RunFound(p: seq<Rule>, m: map<string, int>, olds: seq<Rule>, news: seq<Rule>, n: int)
    requires 0 <= n < |olds| <= |news| && InBounds(p, m) && Reaches(p, m, olds, news, n)
    requires Key(olds[n]) in Run(p, m, olds, news, n).1
    ensures Reaches(p, m, olds, news, n + 1)
    ensures var prev := Run(p, m, olds, news, n);
      var index := prev.1[Key(olds[n])];
      Run(p, m, olds, news, n + 1) ==
        (prev.0[index := news[n]], (prev.1 - {Key(olds[n])})[Key(news[n]) := index], prev.2[index := (n, n)])
  {
  }

  /**
   * The update loop after `n` pairs: the state is the one `Run` gives, every
   * position in it is in range, and for a safe batch `UpdatedUpTo` holds.
   */
  ghost predicate PairsUpTo(q: seq<Rule>, m: map<string, int>, modified: map<int, (int, int)>,
                            p0: seq<Rule>, m0: map<string, int>, olds: seq<Rule>, news: seq<Rule>, safe: bool, n: int)
  {
    && 0 <= n <= |olds| <= |news| && InBounds(p0, m0) && |q| == |p0|
    && InRange(q, m, modified, n)
    && (safe ==> UpdatedUpTo(q, m, p0, m0, olds, news, modified, n))
    && Reaches(p0, m0, olds, news, n)
    && Run(p0, m0, olds, news, n) == (q, m, modified)
  }

  /**
   * What the rollback leaves in the list, in whatever order it visits the
   * record: each recorded slot holds the old rule of its pair, every other
   * slot what it held.
   */
  function Restored(q: seq<Rule>, modified: map<int, (int, int)>, olds: seq<Rule>): (r: seq<Rule>)
    requires forall i :: i in modified ==> 0 <= modified[i].0 < |olds|
    ensures |r| == |q|
    ensures forall i :: 0 <= i < |q| && i !in modified ==> r[i] == q[i]
    ensures forall i :: 0 <= i < |q| && i in modified ==> r[i] == olds[modified[i].0]
  {
    seq(|q|, i requires 0 <= i < |q| => if i in modified then olds[modified[i].0] else q[i])
  }

  /** Part way through the rollback: the slots already visited hold their old rules, all others what they held. */
  ghost predicate UndoneExcept(q: seq<Rule>, q0: seq<Rule>, modified: map<int, (int, int)>,
                               pending: map<int, (int, int)>, olds: seq<Rule>)
  {
    && |q| == |q0|
    && (forall i :: i in modified ==> 0 <= modified[i].0 < |olds|)
    && (forall i :: 0 <= i < |q| ==>
          q[i] == if i in modified && i !in pending then olds[modified[i].0] else q0[i])
  }

  /** Writing back the old rule of one pending slot moves it to the visited ones. */
  lemma UndoStep(q: seq<Rule>, q0: seq<Rule>, modified: map<int, (int, int)>,
                 pending: map<int, (int, int)>, olds: seq<Rule>, index: int)
    requires UndoneExcept(q, q0, modified, pending, olds)
    requires index in pending && index in modified && 0 <= index < |q|
    ensures UndoneExcept(q[index := olds[modified[index].0]], q0, modified, pending - {index}, olds)
  {
  }

  /** Once nothing is pending, the list is the restored one. */
  lemma UndoDone(q: seq<Rule>, q0: seq<Rule>, modified: map<int, (int, int)>, olds: seq<Rule>)
    requires UndoneExcept(q, q0, modified, map[], olds)
    ensures q == Restored(q0, modified, olds)
  {
  }

  lemma PrefixKeys(s: seq<Rule>, n: int)
    requires 0 <= n < |s|
    ensures KeySet(s[..n + 1]) == KeySet(s[..n]) + {Key(s[n])}
  {
    LastKeys(s[..n + 1]);
    assert s[..n + 1][..n] == s[..n];
  }

  lemma UpdatedStart(p0: seq<Rule>, m0: map<string, int>, olds: seq<Rule>, news: seq<Rule>)
    requires Indexed(p0, m0) && |olds| <= |news|
    ensures UpdatedUpTo(p0, m0, p0, m0, olds, news, map[], 0)
  {
    assert KeySet(olds[..0]) == {} && KeySet(news[..0]) == {};
  }

  /**
   * Pair `n`'s old key, when stored, is still in its original slot, which no
   * earlier pair modified; the new key is not stored.
   */
  lemma FoundSlot(q: seq<Rule>, m: map<string, int>, p0: seq<Rule>, m0: map<string, int>,
                  olds: seq<Rule>, news: seq<Rule>, modified: map<int, (int, int)>, n: int)
    requires UpdatedUpTo(q, m, p0, m0, olds, news, modified, n) && BatchUpdateSafe(p0, m0, olds, news)
    requires n < |olds| && Key(olds[n]) in m
    ensures var key, index := Key(olds[n]), m[Key(olds[n])];
      && key in m0 && index == m0[key] && index !in modified && q[index] == p0[index]
    ensures Key(news[n]) !in m && Key(olds[n]) !in KeySet(news[..n])
  {
    var key, index := Key(olds[n]), m[Key(olds[n])];
    forall j | 0 <= j < n ensures Key(news[..n][j]) != key && Key(news[..n][j]) != Key(news[n]) {
      assert news[..n][j] == news[j];
    }
    assert key !in KeySet(news[..n]);
    assert Key(news[n]) !in KeySet(news[..n]);
    assert key in m0;
    forall i | i in modified ensures Key(q[i]) != key {
      var j := modified[i].0;
      assert q[i] == news[j] && news[..n][j] == news[j];
    }
    assert Key(q[index]) == key;
    assert Key(p0[index]) == key;
  }

  /** The key-set bookkeeping of one applied pair. */
  lemma FoundKeys(keys: set<string>, stored: set<string>, removed: set<string>, added: set<string>,
                  key: string, newKey: string)
    requires keys == (stored - removed) + added && key !in added
    ensures (keys - {key}) + {newKey} == (stored - (removed + {key})) + (added + {newKey})
  {
  }

  /**
   * Applying pair `n` when its old key is stored: the slot it finds is the
   * original slot of that key, not yet modified, and the batch state advances.
   */
  lemma UpdatedFound(q: seq<Rule>, m: map<string, int>, p0: seq<Rule>, m0: map<string, int>,
                     olds: seq<Rule>, news: seq<Rule>, modified: map<int, (int, int)>, n: int)
    requires UpdatedUpTo(q, m, p0, m0, olds, news, modified, n) && BatchUpdateSafe(p0, m0, olds, news)
    requires n < |olds| && Key(olds[n]) in m
    ensures var key, index := Key(olds[n]), m[Key(olds[n])];
      && key in m0 && index == m0[key] && index !in modified
      && UpdatedUpTo(q[index := news[n]], (m - {key})[Key(news[n]) := index], p0, m0, olds, news,
                     modified[index := (n, n)], n + 1)
  {
    var key, index := Key(olds[n]), m[Key(olds[n])];
    FoundSlot(q, m, p0, m0, olds, news, modified, n);
    FoundIndex(q, m, p0, m0, olds, news, modified, n);
    FoundRecords(q, p0, m0, olds, news, modified, n, index);
  }

  /** The index side of one applied pair: still indexed, one old key swapped for one new key. */
  lemma FoundIndex(q: seq<Rule>, m: map<string, int>, p0: seq<Rule>, m0: map<string, int>,
                   olds: seq<Rule>, news: seq<Rule>, modified: map<int, (int, int)>, n: int)
    requires UpdatedUpTo(q, m, p0, m0, olds, news, modified, n) && BatchUpdateSafe(p0, m0, olds, news)
    requires n < |olds| && Key(olds[n]) in m
    ensures var key, index := Key(olds[n]), m[Key(olds[n])];
      var m' := (m - {key})[Key(news[n]) := index];
      && Indexed(q[index := news[n]], m')
      && m'.Keys == (m0.Keys - KeySet(olds[..n + 1])) + KeySet(news[..n + 1])
  {
    var key, index := Key(olds[n]), m[Key(olds[n])];
    FoundSlot(q, m, p0, m0, olds, news, modified, n);
    PrefixKeys(olds, n);
    PrefixKeys(news, n);
    ReplaceIndexed(q, m, index, news[n]);
    var m' := (m - {key})[Key(news[n]) := index];
    FoundKeys(m.Keys, m0.Keys, KeySet(olds[..n]), KeySet(news[..n]), key, Key(news[n]));
    assert m'.Keys == (m.Keys - {key}) + {Key(news[n])};
  }

  /** The record side of one applied pair: the slot is recorded, and the other slots keep their state. */
  lemma FoundRecords(q: seq<Rule>, p0: seq<Rule>, m0: map<string, int>,
                     olds: seq<Rule>, news: seq<Rule>, modified: map<int, (int, int)>, n: int, index: int)
    requires 0 <= n < |olds| <= |news| && |q| == |p0| && Recorded(q, p0, m0, olds, news, modified, n)
    requires Key(olds[n]) in m0 && m0[Key(olds[n])] == index && index !in modified && 0 <= index < |q|
    ensures Recorded(q[index := news[n]], p0, m0, olds, news, modified[index := (n, n)], n + 1)
  {
    var q', mod' := q[index := news[n]], modified[index := (n, n)];
    forall i | i in mod'
      ensures && 0 <= mod'[i].0 < n + 1 && mod'[i].1 == mod'[i].0
              && Key(olds[mod'[i].0]) in m0 && m0[Key(olds[mod'[i].0])] == i
              && 0 <= i < |q'| && q'[i] == news[mod'[i].0]
    {
      if i != index {
        assert i in modified;
      }
    }
    forall i | 0 <= i < |p0| && i !in mod' ensures q'[i] == p0[i] {
      assert i !in modified && i != index;
    }
  }

  /**
   * Pair `n`'s old key is missing: it was never stored, and the store is
   * ready for the rollback of what the earlier pairs did.
   */
  lemma UpdatedMissing(q: seq<Rule>, m: map<string, int>, p0: seq<Rule>, m0: map<string, int>,
                       olds: seq<Rule>, news: seq<Rule>, modified: map<int, (int, int)>, n: int)
    requires UpdatedUpTo(q, m, p0, m0, olds, news, modified, n) && BatchUpdateSafe(p0, m0, olds, news)
    requires n < |olds| && Key(olds[n]) !in m
    ensures Key(olds[n]) !in m0
    ensures Restorable(q, m, p0, m0, olds, news, modified)
  {
    var key := Key(olds[n]);
    forall j | 0 <= j < n ensures Key(olds[..n][j]) != key {
      assert olds[..n][j] == olds[j];
    }
    assert key !in KeySet(olds[..n]);
    forall i | i in modified ensures p0[i] == olds[modified[i].0] {
      var j := modified[i].0;
      assert Key(p0[i]) == Key(olds[j]);
      KeyInjective(p0[i], olds[j]);
    }
  }

  /** All pairs applied: every old key was stored and its slot holds the new rule; the other slots are unchanged. */
  lemma UpdatedDone(q: seq<Rule>, m: map<string, int>, p0: seq<Rule>, m0: map<string, int>,
                    olds: seq<Rule>, news: seq<Rule>, modified: map<int, (int, int)>)
    requires UpdatedUpTo(q, m, p0, m0, olds, news, modified, |olds|) && BatchUpdateSafe(p0, m0, olds, news)
    ensures forall j :: 0 <= j < |olds| ==> Key(olds[j]) in m0 && 0 <= m0[Key(olds[j])] < |q| && q[m0[Key(olds[j])]] == news[j]
    ensures forall i :: 0 <= i < |p0| && Key(p0[i]) !in KeySet(olds) ==> q[i] == p0[i]
  {
    forall j | 0 <= j < |olds| ensures Key(olds[j]) in m0 && 0 <= m0[Key(olds[j])] < |q| && q[m0[Key(olds[j])]] == news[j] {
      var i := m0[Key(olds[j])];
      var j' := modified[i].0;
      assert Key(olds[j']) == Key(p0[i]) == Key(olds[j]);
      assert j' == j;
    }
    forall i | i in modified ensures Key(p0[i]) in KeySet(olds) {
      var j := modified[i].0;
      assert Key(olds[j]) == Key(p0[i]);
    }
  }

  /** Restoring one recorded slot: the old key is free, and the store stays restorable without it. */
  lemma RestoreStep(q: seq<Rule>, m: map<string, int>, p0: seq<Rule>, m0: map<string, int>,
                    olds: seq<Rule>, news: seq<Rule>, pending: map<int, (int, int)>, index: int)
    requires Restorable(q, m, p0, m0, olds, news, pending) && index in pending
    ensures var o, nw := olds[pending[index].0], news[pending[index].1];
      Restorable(q[index := o], (m - {Key(nw)})[Key(o) := index], p0, m0, olds, news, pending - {index})
  {
    var o := olds[pending[index].0];
    RestoreFree(q, m, p0, m0, olds, news, pending, index);
    ReplaceIndexed(q, m, index, o);
  }

  /** The old rule of a pending slot has left the index: no slot holds its key. */
  lemma RestoreFree(q: seq<Rule>, m: map<string, int>, p0: seq<Rule>, m0: map<string, int>,
                    olds: seq<Rule>, news: seq<Rule>, pending: map<int, (int, int)>, index: int)
    requires Restorable(q, m, p0, m0, olds, news, pending) && index in pending
    ensures Key(olds[pending[index].0]) !in m
  {
    var o := olds[pending[index].0];
    IndexedKeys(p0, m0);
    IndexedKeys(q, m);
    assert Key(o) in m0;
    forall j | 0 <= j < |q| ensures Key(q[j]) != Key(o) {
      if j in pending {
        assert q[j] == news[pending[j].1];
      } else {
        assert q[j] == p0[j] && j != index;
      }
    }
  }

  /** Nothing left to restore: the store is the original. */
  lemma RestoreDone(q: seq<Rule>, m: map<string, int>, p0: seq<Rule>, m0: map<string, int>,
                    olds: seq<Rule>, news: seq<Rule>)
    requires Restorable(q, m, p0, m0, olds, news, map[])
    ensures q == p0 && m == m0
  {
    IndexedUnique(p0, m, m0);
  }
}
