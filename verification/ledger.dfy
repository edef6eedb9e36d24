/** The progress ledger of the TypeScript port: the state updaters `addScore`,
    `addWeakPoint` and `reduceWeakPoint` of francais-b2-next/src/contexts/AppContext.tsx.
    Each updater maps the previous state to the next one, so each is a function
    here; persistence and the React state machinery are not part of the model. */
module Ledger {
  import opened Seqs
  import opened Catalog

  // ---------------------------------------------------------------------------
  // Scores
  // ---------------------------------------------------------------------------

  /** `Scores`: the list of quiz percentages recorded per unit. */
  type Scores = map<int, seq<int>>

  /** `addScore(unit, pct)`: append pct to the unit's list (an absent unit has
      an empty list). */
  function AddScore(prev: Scores, unit: int, pct: int): (next: Scores)
    ensures unit in next && next.Keys == prev.Keys + {unit}
    ensures next[unit] == (if unit in prev then prev[unit] else []) + [pct]
    ensures forall u :: u in prev && u != unit ==> next[u] == prev[u]
  {
    var existing := if unit in prev then prev[unit] else [];
    prev[unit := existing + [pct]]
  }

  /** Recording scores for two different units commutes. */
  lemma AddScoreCommutes(s: Scores, u: int, p: int, v: int, q: int)
    requires u != v
    ensures AddScore(AddScore(s, u, p), v, q) == AddScore(AddScore(s, v, q), u, p)
  {
  }

  // ---------------------------------------------------------------------------
  // Weak points
  // ---------------------------------------------------------------------------

  /** Does the weak point have the identity (type, unit, key)? */
  predicate Matches(w: WeakPoint, kind: WeakPointType, unit: int, key: string)
  {
    w.kind == kind && w.unit == unit && w.key == key
  }

  /** Does the weak point have an identity other than (type, unit, key)? */
  function Other(kind: WeakPointType, unit: int, key: string): WeakPoint -> bool
  {
    (w: WeakPoint) => !Matches(w, kind, unit, key)
  }

  /** `findIndex`: the first position holding the identity, or -1. */
  function FindIndex(ws: seq<WeakPoint>, kind: WeakPointType, unit: int, key: string): (idx: int)
    ensures -1 <= idx < |ws|
    ensures idx >= 0 ==> Matches(ws[idx], kind, unit, key)
    ensures idx >= 0 ==> forall j :: 0 <= j < idx ==> !Matches(ws[j], kind, unit, key)
    ensures idx < 0 ==> forall j :: 0 <= j < |ws| ==> !Matches(ws[j], kind, unit, key)
  {
    if ws == [] then -1
    else if Matches(ws[0], kind, unit, key) then 0
    else
      var rest := FindIndex(ws[1..], kind, unit, key);
      if rest < 0 then -1 else rest + 1
  }

  /** The fail count recorded for an identity: the first match's, or 0. */
  function FailCount(ws: seq<WeakPoint>, kind: WeakPointType, unit: int, key: string): int
  {
    var idx := FindIndex(ws, kind, unit, key);
    if idx < 0 then 0 else ws[idx].failCount
  }

  /** The well-formed ledger: one entry per identity, each with a positive count. */
  ghost predicate Valid(ws: seq<WeakPoint>)
  {
    (forall i :: 0 <= i < |ws| ==> ws[i].failCount >= 1)
    && forall i, j :: 0 <= i < j < |ws| ==>
         !Matches(ws[j], ws[i].kind, ws[i].unit, ws[i].key)
  }

  /** `addWeakPoint(type, unit, key, item)`. */
  function AddWeakPoint(prev: seq<WeakPoint>, kind: WeakPointType, unit: int, key: string, item: string)
    : seq<WeakPoint>
  {
    var idx := FindIndex(prev, kind, unit, key);
    if idx >= 0 then prev[idx := prev[idx].(failCount := prev[idx].failCount + 1)]
    else prev + [WeakPoint(kind, unit, key, item, 1)]
  }

  /** `prev.filter((_, i) => i !== idx)`. */
  function RemoveAt<T>(s: seq<T>, idx: nat): (r: seq<T>)
    requires idx < |s|
    ensures |r| == |s| - 1
    ensures forall j :: 0 <= j < |r| ==> r[j] == if j < idx then s[j] else s[j + 1]
  {
    s[..idx] + s[idx + 1..]
  }

  /** `reduceWeakPoint(type, unit, key)`. */
  function ReduceWeakPoint(prev: seq<WeakPoint>, kind: WeakPointType, unit: int, key: string): seq<WeakPoint>
  {
    var idx := FindIndex(prev, kind, unit, key);
    if idx < 0 then prev
    else if prev[idx].failCount <= 1 then RemoveAt(prev, idx)
    else prev[idx := prev[idx].(failCount := prev[idx].failCount - 1)]
  }

  /** Adding raises the identity's count by one: an existing entry is bumped in
      place, keeping its identity and item text, and no other entry changes; a
      new identity is appended with count 1 and the item text. */
  lemma AddWeakPointEffect(prev: seq<WeakPoint>, kind: WeakPointType, unit: int, key: string, item: string)
    ensures var next := AddWeakPoint(prev, kind, unit, key, item);
      var idx := FindIndex(prev, kind, unit, key);
      FailCount(next, kind, unit, key) == FailCount(prev, kind, unit, key) + 1
      && (idx >= 0 ==> |next| == |prev| && next[idx] == prev[idx].(failCount := prev[idx].failCount + 1)
                       && forall j :: 0 <= j < |prev| && j != idx ==> next[j] == prev[j])
      && (idx < 0 ==> next == prev + [WeakPoint(kind, unit, key, item, 1)])
  {
    var next := AddWeakPoint(prev, kind, unit, key, item);
    var idx := FindIndex(prev, kind, unit, key);
    if idx >= 0 {
      FindAfterUpdate(prev, idx, next[idx], kind, unit, key);
    } else {
      FindAppended(prev, WeakPoint(kind, unit, key, item, 1), kind, unit, key);
    }
  }

  /** Updating the entry that holds the first match keeps it the first match. */
  lemma FindAfterUpdate(ws: seq<WeakPoint>, idx: nat, w: WeakPoint, kind: WeakPointType, unit: int, key: string)
    requires idx < |ws| && FindIndex(ws, kind, unit, key) == idx && Matches(w, kind, unit, key)
    ensures FindIndex(ws[idx := w], kind, unit, key) == idx
  {
    FindFirst(ws[idx := w], idx, kind, unit, key);
  }

  /** A matching position with no match before it is what findIndex returns. */
  lemma {:induction false} FindFirst(ws: seq<WeakPoint>, idx: nat, kind: WeakPointType, unit: int, key: string)
    requires idx < |ws| && Matches(ws[idx], kind, unit, key)
    requires forall j :: 0 <= j < idx ==> !Matches(ws[j], kind, unit, key)
    ensures FindIndex(ws, kind, unit, key) == idx
  {
    if idx > 0 {
      FindFirst(ws[1..], idx - 1, kind, unit, key);
    }
  }

  /** With no match at all, findIndex returns -1. */
  lemma {:induction false} FindNone(ws: seq<WeakPoint>, kind: WeakPointType, unit: int, key: string)
    requires forall j :: 0 <= j < |ws| ==> !Matches(ws[j], kind, unit, key)
    ensures FindIndex(ws, kind, unit, key) == -1
  {
    if ws != [] {
      FindNone(ws[1..], kind, unit, key);
    }
  }

  /** Appending a match to a list without one makes the last position the match. */
  lemma FindAppended(ws: seq<WeakPoint>, w: WeakPoint, kind: WeakPointType, unit: int, key: string)
    requires FindIndex(ws, kind, unit, key) < 0 && Matches(w, kind, unit, key)
    ensures FindIndex(ws + [w], kind, unit, key) == |ws|
  {
    FindFirst(ws + [w], |ws|, kind, unit, key);
  }

  /** Adding one identity leaves the count of every other identity alone. */
  lemma AddWeakPointOthers(prev: seq<WeakPoint>, kind: WeakPointType, unit: int, key: string, item: string,
                           kind': WeakPointType, unit': int, key': string)
    requires !(kind == kind' && unit == unit' && key == key')
    ensures FailCount(AddWeakPoint(prev, kind, unit, key, item), kind', unit', key')
         == FailCount(prev, kind', unit', key')
  {
    var next := AddWeakPoint(prev, kind, unit, key, item);
    var idx' := FindIndex(prev, kind', unit', key');
    assert forall j :: 0 <= j < |prev| ==> (Matches(next[j], kind', unit', key') <==> Matches(prev[j], kind', unit', key'));
    if idx' >= 0 {
      FindFirst(next, idx', kind', unit', key');
    } else {
      FindNone(next, kind', unit', key');
    }
  }

  /** Reducing lowers the identity's count by one on a valid ledger, removing
      the entry when it reaches zero and otherwise lowering it in place with
      no other entry changed; an absent identity changes nothing. */
  lemma ReduceWeakPointEffect(prev: seq<WeakPoint>, kind: WeakPointType, unit: int, key: string)
    requires Valid(prev)
    ensures var next := ReduceWeakPoint(prev, kind, unit, key);
      var c := FailCount(prev, kind, unit, key);
      var idx := FindIndex(prev, kind, unit, key);
      FailCount(next, kind, unit, key) == (if c == 0 then 0 else c - 1)
      && (c == 0 ==> next == prev)
      && (c == 1 ==> 0 <= idx && next == RemoveAt(prev, idx))
      && (c > 1 ==> 0 <= idx && |next| == |prev| && next[idx] == prev[idx].(failCount := c - 1)
                    && forall j :: 0 <= j < |prev| && j != idx ==> next[j] == prev[j])
  {
    var next := ReduceWeakPoint(prev, kind, unit, key);
    var idx := FindIndex(prev, kind, unit, key);
    if idx >= 0 {
      if prev[idx].failCount <= 1 {
        forall j | 0 <= j < |next| ensures !Matches(next[j], kind, unit, key) {
          if j >= idx {
            assert next[j] == prev[j + 1];
          }
        }
        FindNone(next, kind, unit, key);
      } else {
        FindAfterUpdate(prev, idx, next[idx], kind, unit, key);
      }
    }
  }

  /** Adding one identity leaves the entries of every other identity as they
      were, in their order. */
  lemma AddWeakPointKeepsOthers(prev: seq<WeakPoint>, kind: WeakPointType, unit: int, key: string, item: string)
    ensures Filter(AddWeakPoint(prev, kind, unit, key, item), Other(kind, unit, key))
         == Filter(prev, Other(kind, unit, key))
  {
    var idx := FindIndex(prev, kind, unit, key);
    if idx >= 0 {
      FilterUpdateDropped(prev, idx, prev[idx].(failCount := prev[idx].failCount + 1), Other(kind, unit, key));
    } else {
      FilterAppendDropped(prev, WeakPoint(kind, unit, key, item, 1), Other(kind, unit, key));
    }
  }

  /** Reducing one identity leaves the entries of every other identity as they
      were, in their order. */
  lemma ReduceWeakPointKeepsOthers(prev: seq<WeakPoint>, kind: WeakPointType, unit: int, key: string)
    ensures Filter(ReduceWeakPoint(prev, kind, unit, key), Other(kind, unit, key))
         == Filter(prev, Other(kind, unit, key))
  {
    var idx := FindIndex(prev, kind, unit, key);
    if idx >= 0 {
      if prev[idx].failCount <= 1 {
        FilterRemoveDropped(prev, idx, Other(kind, unit, key));
      } else {
        FilterUpdateDropped(prev, idx, prev[idx].(failCount := prev[idx].failCount - 1), Other(kind, unit, key));
      }
    }
  }

  /** Reducing one identity leaves the count of every other identity alone. */
  lemma ReduceWeakPointOthers(prev: seq<WeakPoint>, kind: WeakPointType, unit: int, key: string,
                              kind': WeakPointType, unit': int, key': string)
    requires !(kind == kind' && unit == unit' && key == key')
    ensures FailCount(ReduceWeakPoint(prev, kind, unit, key), kind', unit', key')
         == FailCount(prev, kind', unit', key')
  {
    var idx := FindIndex(prev, kind, unit, key);
    if idx >= 0 {
      assert !Matches(prev[idx], kind', unit', key');
      if prev[idx].failCount <= 1 {
        assert ReduceWeakPoint(prev, kind, unit, key) == RemoveAt(prev, idx);
        RemoveAtOthers(prev, idx, kind', unit', key');
      } else {
        var w := prev[idx].(failCount := prev[idx].failCount - 1);
        assert ReduceWeakPoint(prev, kind, unit, key) == prev[idx := w];
        UpdateOthers(prev, idx, w, kind', unit', key');
      }
    }
  }

  /** Removing an entry that does not hold the identity keeps its count. */
  lemma RemoveAtOthers(prev: seq<WeakPoint>, idx: nat, kind: WeakPointType, unit: int, key: string)
    requires idx < |prev| && !Matches(prev[idx], kind, unit, key)
    ensures FailCount(RemoveAt(prev, idx), kind, unit, key) == FailCount(prev, kind, unit, key)
  {
    var next := RemoveAt(prev, idx);
    var idx' := FindIndex(prev, kind, unit, key);
    if idx' >= 0 {
      var at := if idx' < idx then idx' else idx' - 1;
      assert next[at] == prev[idx'];
      forall j | 0 <= j < at ensures !Matches(next[j], kind, unit, key) {
        if j >= idx { assert next[j] == prev[j + 1]; }
      }
      FindFirst(next, at, kind, unit, key);
    } else {
      forall j | 0 <= j < |next| ensures !Matches(next[j], kind, unit, key) {
        if j >= idx { assert next[j] == prev[j + 1]; }
      }
      FindNone(next, kind, unit, key);
    }
  }

  /** Replacing an entry by one of the same identity that does not hold the
      given identity keeps that identity's count. */
  lemma UpdateOthers(prev: seq<WeakPoint>, idx: nat, w: WeakPoint, kind: WeakPointType, unit: int, key: string)
    requires idx < |prev| && !Matches(prev[idx], kind, unit, key) && !Matches(w, kind, unit, key)
    ensures FailCount(prev[idx := w], kind, unit, key) == FailCount(prev, kind, unit, key)
  {
    var next := prev[idx := w];
    var idx' := FindIndex(prev, kind, unit, key);
    if idx' >= 0 {
      forall j | 0 <= j < idx' ensures !Matches(next[j], kind, unit, key) {
        if j != idx { assert next[j] == prev[j]; }
      }
      FindFirst(next, idx', kind, unit, key);
    } else {
      forall j | 0 <= j < |next| ensures !Matches(next[j], kind, unit, key) {
        if j != idx { assert next[j] == prev[j]; }
      }
      FindNone(next, kind, unit, key);
    }
  }

  /** Adding keeps the ledger valid. */
  lemma AddWeakPointValid(prev: seq<WeakPoint>, kind: WeakPointType, unit: int, key: string, item: string)
    requires Valid(prev)
    ensures Valid(AddWeakPoint(prev, kind, unit, key, item))
  {
    var next := AddWeakPoint(prev, kind, unit, key, item);
    if FindIndex(prev, kind, unit, key) >= 0 {
      forall i, j | 0 <= i < j < |next| ensures !Matches(next[j], next[i].kind, next[i].unit, next[i].key) {
        assert Matches(next[j], prev[j].kind, prev[j].unit, prev[j].key);
        assert Matches(next[i], prev[i].kind, prev[i].unit, prev[i].key);
      }
    }
  }

  /** Reducing keeps the ledger valid. */
  lemma ReduceWeakPointValid(prev: seq<WeakPoint>, kind: WeakPointType, unit: int, key: string)
    requires Valid(prev)
    ensures Valid(ReduceWeakPoint(prev, kind, unit, key))
  {
    var next := ReduceWeakPoint(prev, kind, unit, key);
    var idx := FindIndex(prev, kind, unit, key);
    if idx >= 0 {
      if prev[idx].failCount <= 1 {
        forall i, j | 0 <= i < j < |next| ensures !Matches(next[j], next[i].kind, next[i].unit, next[i].key) {
          var i' := if i < idx then i else i + 1;
          var j' := if j < idx then j else j + 1;
          assert next[i] == prev[i'] && next[j] == prev[j'];
        }
      } else {
        forall i, j | 0 <= i < j < |next| ensures !Matches(next[j], next[i].kind, next[i].unit, next[i].key) {
          assert Matches(next[j], prev[j].kind, prev[j].unit, prev[j].key);
          assert Matches(next[i], prev[i].kind, prev[i].unit, prev[i].key);
        }
      }
    }
  }

  /** A wrong answer followed by a right one on the same question leaves a
      valid ledger exactly as it was. */
  lemma AddThenReduce(prev: seq<WeakPoint>, kind: WeakPointType, unit: int, key: string, item: string)
    requires Valid(prev)
    ensures ReduceWeakPoint(AddWeakPoint(prev, kind, unit, key, item), kind, unit, key) == prev
  {
    var next := AddWeakPoint(prev, kind, unit, key, item);
    var idx := FindIndex(prev, kind, unit, key);
    if idx >= 0 {
      FindAfterUpdate(prev, idx, next[idx], kind, unit, key);
      assert next[idx := next[idx].(failCount := next[idx].failCount - 1)] == prev;
    } else {
      AddThenReduceFresh(prev, kind, unit, key, item);
    }
  }

  /** On a question the ledger does not hold yet, a wrong answer followed by a
      right one leaves any ledger, valid or not, exactly as it was. */
  lemma AddThenReduceFresh(prev: seq<WeakPoint>, kind: WeakPointType, unit: int, key: string, item: string)
    requires FindIndex(prev, kind, unit, key) < 0
    ensures ReduceWeakPoint(AddWeakPoint(prev, kind, unit, key, item), kind, unit, key) == prev
  {
    var next := AddWeakPoint(prev, kind, unit, key, item);
    FindAppended(prev, WeakPoint(kind, unit, key, item, 1), kind, unit, key);
    assert RemoveAt(next, |prev|) == prev;
  }

  /** Without the validity invariant the round trip can fail: a count of 0 is
      bumped to 1 and then the entry is removed. */
  lemma AddThenReduceNeedsValid()
    ensures var prev := [WeakPoint(Vocabulary, 1, "k", "i", 0)];
      ReduceWeakPoint(AddWeakPoint(prev, Vocabulary, 1, "k", "i"), Vocabulary, 1, "k") == []
  {
    var prev := [WeakPoint(Vocabulary, 1, "k", "i", 0)];
    assert FindIndex(prev, Vocabulary, 1, "k") == 0;
    var next := AddWeakPoint(prev, Vocabulary, 1, "k", "i");
    assert next == [WeakPoint(Vocabulary, 1, "k", "i", 1)];
    assert FindIndex(next, Vocabulary, 1, "k") == 0;
  }
}
