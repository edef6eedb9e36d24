/** The weak-point store of the Python port (lib/state.py): a list of weak
    points kept in the session, updated in place by `add_weak_point` and
    `reduce_weak_point` and read back, ordered by fail count, by
    `get_weak_items_for_unit`.  The session itself is the object below. */
module SessionState {
  import opened Seqs
  import opened Catalog
  import Quiz

  /** `_wp_key`: the identity of a weak point. */
  function WpKey(wp: PyWeakPoint): (string, int, string)
  {
    (wp.kind, wp.unit, wp.key)
  }

  /** `wp.get("fail_count", d)`. */
  function CountOr(c: Option<int>, d: int): int
  {
    match c
    case Some(n) => n
    case None => d
  }

  /** The first position holding the identity, or -1. */
  function FindKey(ws: seq<PyWeakPoint>, k: (string, int, string)): (idx: int)
    ensures -1 <= idx < |ws|
    ensures idx >= 0 ==> WpKey(ws[idx]) == k
    ensures idx >= 0 ==> forall j :: 0 <= j < idx ==> WpKey(ws[j]) != k
    ensures idx < 0 ==> forall j :: 0 <= j < |ws| ==> WpKey(ws[j]) != k
  {
    if ws == [] then -1
    else if WpKey(ws[0]) == k then 0
    else
      var rest := FindKey(ws[1..], k);
      if rest < 0 then -1 else rest + 1
  }

  /** The longest item text a new weak point keeps. */
  const ItemLimit := 80

  /** The list after `add_weak_point(type, unit, key, item)`: the first entry
      with the identity gets its count (missing counts as 1) raised by one,
      otherwise a new entry with count 1 and the item cut to 80 characters is
      appended. */
  function Added(ws: seq<PyWeakPoint>, kind: string, unit: int, key: string, item: string): seq<PyWeakPoint>
  {
    var idx := FindKey(ws, (kind, unit, key));
    if idx >= 0 then ws[idx := ws[idx].(failCount := Some(CountOr(ws[idx].failCount, 1) + 1))]
    else ws + [PyWeakPoint(kind, unit, key, Quiz.Prefix(item, ItemLimit), Some(1))]
  }

  /** The list after `reduce_weak_point(type, unit, key)`: the first entry with
      the identity gets its count (missing counts as 1) lowered by one and is
      removed once the count is at most 0. */
  function Reduced(ws: seq<PyWeakPoint>, kind: string, unit: int, key: string): seq<PyWeakPoint>
  {
    var idx := FindKey(ws, (kind, unit, key));
    if idx < 0 then ws
    else
      var c := CountOr(ws[idx].failCount, 1) - 1;
      if c <= 0 then ws[..idx] + ws[idx + 1..]
      else ws[idx := ws[idx].(failCount := Some(c))]
  }

  /** The key `get_weak_items_for_unit` sorts by: the count, missing as 0. */
  function SortKey(w: PyWeakPoint): int
  {
    CountOr(w.failCount, 0)
  }

  /** Put x in front of the first element whose key is not larger than its own. */
  function InsertDesc(x: PyWeakPoint, s: seq<PyWeakPoint>): (r: seq<PyWeakPoint>)
    ensures |r| == |s| + 1
  {
    if s == [] then [x]
    else if SortKey(s[0]) <= SortKey(x) then [x] + s
    else [s[0]] + InsertDesc(x, s[1..])
  }

  /** Inserting adds exactly x to the elements. */
  lemma {:induction false} InsertDescMultiset(x: PyWeakPoint, s: seq<PyWeakPoint>)
    ensures multiset(InsertDesc(x, s)) == multiset(s) + multiset{x}
  {
    if s != [] && SortKey(s[0]) > SortKey(x) {
      InsertDescMultiset(x, s[1..]);
      assert s == [s[0]] + s[1..];
    }
  }

  /** A stable sort by descending key (`list.sort(key=…, reverse=True)`). */
  function SortDesc(s: seq<PyWeakPoint>): seq<PyWeakPoint>
  {
    if s == [] then [] else InsertDesc(s[0], SortDesc(s[1..]))
  }

  ghost predicate SortedDesc(s: seq<PyWeakPoint>)
  {
    forall i, j :: 0 <= i < j < |s| ==> SortKey(s[i]) >= SortKey(s[j])
  }

  /** The elements of s whose sort key is c, in their order in s. */
  function Run(s: seq<PyWeakPoint>, c: int): seq<PyWeakPoint>
  {
    if s == [] then []
    else (if SortKey(s[0]) == c then [s[0]] else []) + Run(s[1..], c)
  }

  function InUnit(unit: int): PyWeakPoint -> bool
  {
    (w: PyWeakPoint) => w.unit == unit
  }

  lemma {:induction false} InsertDescSorted(x: PyWeakPoint, s: seq<PyWeakPoint>)
    requires SortedDesc(s)
    ensures SortedDesc(InsertDesc(x, s))
  {
    if s == [] {
    } else if SortKey(s[0]) <= SortKey(x) {
      SortedCons(x, s);
    } else {
      var t := s[1..];
      assert SortedDesc(t) by {
        forall i, j | 0 <= i < j < |t| ensures SortKey(t[i]) >= SortKey(t[j]) {
          assert t[i] == s[i + 1] && t[j] == s[j + 1];
        }
      }
      InsertDescSorted(x, t);
      var r := InsertDesc(x, t);
      assert r[0] == x || r[0] == s[1];
      SortedCons(s[0], r);
    }
  }

  /** An element no smaller than the head of a sorted sequence can go in front. */
  lemma SortedCons(h: PyWeakPoint, r: seq<PyWeakPoint>)
    requires SortedDesc(r) && (r == [] || SortKey(h) >= SortKey(r[0]))
    ensures SortedDesc([h] + r)
  {
    var s := [h] + r;
    forall i, j | 0 <= i < j < |s| ensures SortKey(s[i]) >= SortKey(s[j]) {
      assert s[j] == r[j - 1];
      if i > 0 {
        assert s[i] == r[i - 1];
      } else if j > 1 {
        assert SortKey(r[0]) >= SortKey(r[j - 1]);
      }
    }
  }

  /** Inserting x adds it to the run of its own key in front of the equal
      elements already there, and leaves every other run alone. */
  lemma {:induction false} InsertDescRuns(x: PyWeakPoint, s: seq<PyWeakPoint>, c: int)
    ensures Run(InsertDesc(x, s), c) == (if SortKey(x) == c then [x] else []) + Run(s, c)
  {
    if s == [] {
      assert [x][1..] == [];
    } else if SortKey(s[0]) <= SortKey(x) {
      assert ([x] + s)[1..] == s;
    } else {
      var r := InsertDesc(x, s[1..]);
      InsertDescRuns(x, s[1..], c);
      var hx: seq<PyWeakPoint> := if SortKey(x) == c then [x] else [];
      var h0: seq<PyWeakPoint> := if SortKey(s[0]) == c then [s[0]] else [];
      assert Run(s, c) == h0 + Run(s[1..], c);
      assert Run(InsertDesc(x, s), c) == h0 + Run(r, c) by {
        assert InsertDesc(x, s) == [s[0]] + r;
        assert ([s[0]] + r)[1..] == r;
      }
      if hx == [] {
        assert hx + Run(s, c) == Run(s, c);
        assert Run(r, c) == Run(s[1..], c) by {
          assert hx + Run(s[1..], c) == Run(s[1..], c);
        }
      } else {
        assert h0 == [];
        assert h0 + Run(r, c) == Run(r, c);
        assert h0 + Run(s[1..], c) == Run(s[1..], c);
      }
    }
  }

  /** SortDesc orders by descending key, keeps every element, and keeps the
      elements of equal key in their original order. */
  lemma {:induction false} SortDescCorrect(s: seq<PyWeakPoint>)
    ensures SortedDesc(SortDesc(s))
    ensures multiset(SortDesc(s)) == multiset(s)
    ensures forall c :: Run(SortDesc(s), c) == Run(s, c)
  {
    if s != [] {
      SortDescCorrect(s[1..]);
      InsertDescSorted(s[0], SortDesc(s[1..]));
      InsertDescMultiset(s[0], SortDesc(s[1..]));
      assert s == [s[0]] + s[1..];
      forall c ensures Run(SortDesc(s), c) == Run(s, c) {
        InsertDescRuns(s[0], SortDesc(s[1..]), c);
      }
    }
  }

  /** Sorting the unit's entries keeps them the unit's. */
  lemma SortedInUnit(mine: seq<PyWeakPoint>, unit: int)
    requires forall i :: 0 <= i < |mine| ==> mine[i].unit == unit
    ensures forall i :: 0 <= i < |SortDesc(mine)| ==> SortDesc(mine)[i].unit == unit
  {
    SortDescCorrect(mine);
    forall i | 0 <= i < |SortDesc(mine)| ensures SortDesc(mine)[i].unit == unit {
      assert SortDesc(mine)[i] in multiset(mine);
    }
  }

  /** The well-formed store: one entry per identity, each with a count of at
      least 1. */
  ghost predicate Valid(ws: seq<PyWeakPoint>)
  {
    (forall i :: 0 <= i < |ws| ==> ws[i].failCount.Some? && ws[i].failCount.value >= 1)
    && forall i, j :: 0 <= i < j < |ws| ==> WpKey(ws[i]) != WpKey(ws[j])
  }

  /** The count recorded for an identity, or 0 when it has no entry. */
  function Count(ws: seq<PyWeakPoint>, k: (string, int, string)): int
  {
    var idx := FindKey(ws, k);
    if idx < 0 then 0 else CountOr(ws[idx].failCount, 1)
  }

  lemma {:induction false} FindFirst(ws: seq<PyWeakPoint>, idx: nat, k: (string, int, string))
    requires idx < |ws| && WpKey(ws[idx]) == k
    requires forall j :: 0 <= j < idx ==> WpKey(ws[j]) != k
    ensures FindKey(ws, k) == idx
  {
    if idx > 0 {
      FindFirst(ws[1..], idx - 1, k);
    }
  }

  lemma {:induction false} FindNone(ws: seq<PyWeakPoint>, k: (string, int, string))
    requires forall j :: 0 <= j < |ws| ==> WpKey(ws[j]) != k
    ensures FindKey(ws, k) == -1
  {
    if ws != [] {
      FindNone(ws[1..], k);
    }
  }

  /** Adding raises the identity's count by one (a missing count reads as 1):
      an existing entry is bumped in place, keeping its identity and item, and
      no other entry changes; a new entry keeping at most 80 characters of the
      item is appended. */
  lemma AddedEffect(ws: seq<PyWeakPoint>, kind: string, unit: int, key: string, item: string)
    ensures var next := Added(ws, kind, unit, key, item);
      var idx := FindKey(ws, (kind, unit, key));
      Count(next, (kind, unit, key)) == Count(ws, (kind, unit, key)) + 1
      && (idx >= 0 ==>
            |next| == |ws|
            && next[idx] == ws[idx].(failCount := Some(Count(ws, (kind, unit, key)) + 1))
            && forall j :: 0 <= j < |ws| && j != idx ==> next[j] == ws[j])
      && (idx < 0 ==>
            next == ws + [PyWeakPoint(kind, unit, key, item[..Min(|item|, 80)], Some(1))])
  {
    var k := (kind, unit, key);
    var next := Added(ws, kind, unit, key, item);
    var idx := FindKey(ws, k);
    if idx >= 0 {
      FindFirst(next, idx, k);
    } else {
      FindFirst(next, |ws|, k);
    }
  }

  /** Adding one identity leaves every other identity's count alone. */
  lemma AddedOthers(ws: seq<PyWeakPoint>, kind: string, unit: int, key: string, item: string,
                    k': (string, int, string))
    requires k' != (kind, unit, key)
    ensures Count(Added(ws, kind, unit, key, item), k') == Count(ws, k')
  {
    var next := Added(ws, kind, unit, key, item);
    var idx' := FindKey(ws, k');
    assert forall j :: 0 <= j < |ws| ==> WpKey(next[j]) == WpKey(ws[j]);
    if idx' >= 0 {
      FindFirst(next, idx', k');
    } else {
      FindNone(next, k');
    }
  }

  /** On a valid store reducing lowers the identity's count by one, removing
      the entry when it reaches 0 and otherwise lowering it in place with no
      other entry changed; an absent identity changes nothing. */
  lemma ReducedEffect(ws: seq<PyWeakPoint>, kind: string, unit: int, key: string)
    requires Valid(ws)
    ensures var next := Reduced(ws, kind, unit, key);
      var c := Count(ws, (kind, unit, key));
      var idx := FindKey(ws, (kind, unit, key));
      Count(next, (kind, unit, key)) == (if c == 0 then 0 else c - 1)
      && (c == 0 ==> next == ws)
      && (c == 1 ==> 0 <= idx && next == ws[..idx] + ws[idx + 1..])
      && (c > 1 ==> 0 <= idx && |next| == |ws| && next[idx] == ws[idx].(failCount := Some(c - 1))
                    && forall j :: 0 <= j < |ws| && j != idx ==> next[j] == ws[j])
  {
    var k := (kind, unit, key);
    var next := Reduced(ws, kind, unit, key);
    var idx := FindKey(ws, k);
    if idx >= 0 {
      if CountOr(ws[idx].failCount, 1) - 1 <= 0 {
        forall j | 0 <= j < |next| ensures WpKey(next[j]) != k {
          if j >= idx {
            assert next[j] == ws[j + 1];
          }
        }
        FindNone(next, k);
      } else {
        FindFirst(next, idx, k);
      }
    }
  }

  /** Does the weak point have an identity other than k? */
  function Other(k: (string, int, string)): PyWeakPoint -> bool
  {
    (w: PyWeakPoint) => WpKey(w) != k
  }

  /** Adding one identity leaves the entries of every other identity as they
      were, in their order. */
  lemma AddedKeepsOthers(ws: seq<PyWeakPoint>, kind: string, unit: int, key: string, item: string)
    ensures Filter(Added(ws, kind, unit, key, item), Other((kind, unit, key))) == Filter(ws, Other((kind, unit, key)))
  {
    var k := (kind, unit, key);
    var idx := FindKey(ws, k);
    if idx >= 0 {
      FilterUpdateDropped(ws, idx, ws[idx].(failCount := Some(CountOr(ws[idx].failCount, 1) + 1)), Other(k));
    } else {
      FilterAppendDropped(ws, PyWeakPoint(kind, unit, key, Quiz.Prefix(item, ItemLimit), Some(1)), Other(k));
    }
  }

  /** Reducing one identity leaves the entries of every other identity as they
      were, in their order. */
  lemma ReducedKeepsOthers(ws: seq<PyWeakPoint>, kind: string, unit: int, key: string)
    ensures Filter(Reduced(ws, kind, unit, key), Other((kind, unit, key))) == Filter(ws, Other((kind, unit, key)))
  {
    var k := (kind, unit, key);
    var idx := FindKey(ws, k);
    if idx >= 0 {
      var c := CountOr(ws[idx].failCount, 1) - 1;
      if c <= 0 {
        FilterRemoveDropped(ws, idx, Other(k));
      } else {
        FilterUpdateDropped(ws, idx, ws[idx].(failCount := Some(c)), Other(k));
      }
    }
  }

  /** Reducing one identity leaves every other identity's count alone. */
  lemma ReducedOthers(ws: seq<PyWeakPoint>, kind: string, unit: int, key: string,
                      k': (string, int, string))
    requires k' != (kind, unit, key)
    ensures Count(Reduced(ws, kind, unit, key), k') == Count(ws, k')
  {
    var next := Reduced(ws, kind, unit, key);
    var idx := FindKey(ws, (kind, unit, key));
    var idx' := FindKey(ws, k');
    if idx >= 0 && CountOr(ws[idx].failCount, 1) - 1 <= 0 {
      if idx' >= 0 {
        var at := if idx' < idx then idx' else idx' - 1;
        assert next[at] == ws[idx'];
        forall j | 0 <= j < at ensures WpKey(next[j]) != k' {
          if j >= idx { assert next[j] == ws[j + 1]; }
        }
        FindFirst(next, at, k');
      } else {
        forall j | 0 <= j < |next| ensures WpKey(next[j]) != k' {
          if j >= idx { assert next[j] == ws[j + 1]; }
        }
        FindNone(next, k');
      }
    } else {
      assert forall j :: 0 <= j < |ws| ==> WpKey(next[j]) == WpKey(ws[j]);
      if idx' >= 0 {
        FindFirst(next, idx', k');
      } else {
        FindNone(next, k');
      }
    }
  }

  /** Adding keeps the store valid. */
  lemma AddedValid(ws: seq<PyWeakPoint>, kind: string, unit: int, key: string, item: string)
    requires Valid(ws)
    ensures Valid(Added(ws, kind, unit, key, item))
  {
    var next := Added(ws, kind, unit, key, item);
    if FindKey(ws, (kind, unit, key)) >= 0 {
      assert forall j :: 0 <= j < |ws| ==> WpKey(next[j]) == WpKey(ws[j]);
    }
  }

  /** Reducing keeps the store valid. */
  lemma ReducedValid(ws: seq<PyWeakPoint>, kind: string, unit: int, key: string)
    requires Valid(ws)
    ensures Valid(Reduced(ws, kind, unit, key))
  {
    var next := Reduced(ws, kind, unit, key);
    var idx := FindKey(ws, (kind, unit, key));
    if idx >= 0 {
      if CountOr(ws[idx].failCount, 1) - 1 <= 0 {
        forall i, j | 0 <= i < j < |next| ensures WpKey(next[i]) != WpKey(next[j]) {
          var i' := if i < idx then i else i + 1;
          var j' := if j < idx then j else j + 1;
          assert next[i] == ws[i'] && next[j] == ws[j'];
        }
      } else {
        assert forall j :: 0 <= j < |ws| ==> WpKey(next[j]) == WpKey(ws[j]);
      }
    }
  }

  /** A wrong answer then a right one on the same question leaves a valid
      store as it was. */
  lemma AddedThenReduced(ws: seq<PyWeakPoint>, kind: string, unit: int, key: string, item: string)
    requires Valid(ws)
    ensures Reduced(Added(ws, kind, unit, key, item), kind, unit, key) == ws
  {
    var k := (kind, unit, key);
    var next := Added(ws, kind, unit, key, item);
    var idx := FindKey(ws, k);
    if idx >= 0 {
      var c := ws[idx].failCount.value;
      assert next == ws[idx := ws[idx].(failCount := Some(c + 1))];
      forall j | 0 <= j < idx ensures WpKey(next[j]) != k {
        assert next[j] == ws[j];
      }
      FindFirst(next, idx, k);
      assert ws[idx].(failCount := Some(c)) == ws[idx];
      assert next[idx := next[idx].(failCount := Some(c))] == ws;
    } else {
      AddedThenReducedFresh(ws, kind, unit, key, item);
    }
  }

  /** On a question the store does not hold yet, a wrong answer then a right
      one leaves any store, valid or not, as it was. */
  lemma AddedThenReducedFresh(ws: seq<PyWeakPoint>, kind: string, unit: int, key: string, item: string)
    requires FindKey(ws, (kind, unit, key)) < 0
    ensures Reduced(Added(ws, kind, unit, key, item), kind, unit, key) == ws
  {
    var k := (kind, unit, key);
    var next := Added(ws, kind, unit, key, item);
    assert forall j :: 0 <= j < |ws| ==> next[j] == ws[j];
    FindFirst(next, |ws|, k);
    assert next[..|ws|] + next[|ws| + 1..] == ws;
  }

  /** An entry whose count is missing ranks last when sorted (as 0) but counts
      as 1 when added to or reduced, so a single right answer removes it. */
  lemma MissingCountDefaults(w: PyWeakPoint)
    requires w.failCount.None?
    ensures SortKey(w) == 0
    ensures Count(Added([w], w.kind, w.unit, w.key, w.item), WpKey(w)) == 2
    ensures Reduced([w], w.kind, w.unit, w.key) == []
  {
    assert FindKey([w], WpKey(w)) == 0;
    var next := Added([w], w.kind, w.unit, w.key, w.item);
    assert FindKey(next, WpKey(w)) == 0;
  }

  /** The session's weak-point list (`st.session_state.weak_points`). */
  class WeakPointStore {
    var weakPoints: seq<PyWeakPoint>

    constructor ()
      ensures weakPoints == []
    {
      weakPoints := [];
    }

    /** `add_weak_point`: scan for the identity and bump it, else append. */
    method AddWeakPoint(kind: string, unit: int, key: string, item: string)
      modifies this
      ensures weakPoints == Added(old(weakPoints), kind, unit, key, item)
    {
      var i := 0;
      while i < |weakPoints|
        invariant 0 <= i <= |weakPoints|
        invariant weakPoints == old(weakPoints)
        invariant forall j :: 0 <= j < i ==> WpKey(weakPoints[j]) != (kind, unit, key)
      {
        if WpKey(weakPoints[i]) == (kind, unit, key) {
          FindFirst(weakPoints, i, (kind, unit, key));
          weakPoints := weakPoints[i := weakPoints[i].(failCount := Some(CountOr(weakPoints[i].failCount, 1) + 1))];
          return;
        }
        i := i + 1;
      }
      weakPoints := weakPoints + [PyWeakPoint(kind, unit, key, Quiz.Prefix(item, ItemLimit), Some(1))];
    }

    /** `reduce_weak_point`: scan for the identity, lower its count and pop
        it once the count is at most 0. */
    method ReduceWeakPoint(kind: string, unit: int, key: string)
      modifies this
      ensures weakPoints == Reduced(old(weakPoints), kind, unit, key)
    {
      var i := 0;
      while i < |weakPoints|
        invariant 0 <= i <= |weakPoints|
        invariant weakPoints == old(weakPoints)
        invariant forall j :: 0 <= j < i ==> WpKey(weakPoints[j]) != (kind, unit, key)
      {
        if WpKey(weakPoints[i]) == (kind, unit, key) {
          FindFirst(weakPoints, i, (kind, unit, key));
          var c := CountOr(weakPoints[i].failCount, 1) - 1;
          if c <= 0 {
            weakPoints := weakPoints[..i] + weakPoints[i + 1..];
          } else {
            weakPoints := weakPoints[i := weakPoints[i].(failCount := Some(c))];
          }
          return;
        }
        i := i + 1;
      }
    }

    /** `get_weak_items_for_unit`: the unit's weak points, highest count
        first, ties in stored order. */
    function WeakItemsForUnit(unit: int): (items: seq<PyWeakPoint>)
      reads this
      ensures forall i :: 0 <= i < |items| ==> items[i].unit == unit
      ensures SortedDesc(items)
      ensures multiset(items) == multiset(Filter(weakPoints, InUnit(unit)))
      ensures forall c :: Run(items, c) == Run(Filter(weakPoints, InUnit(unit)), c)
    {
      var mine := Filter(weakPoints, InUnit(unit));
      SortDescCorrect(mine);
      SortedInUnit(mine, unit);
      SortDesc(mine)
    }
  }
}
