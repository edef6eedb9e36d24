/** The building blocks of the quiz assembler (francais-b2-next/src/lib/quiz.ts,
    with the Python variant lib/quiz.py where it differs): question keys,
    random sampling and shuffling, the proportional split of a question budget
    over pools, and the weak-biased selection from one pool.

    Every random index is a nondeterministic choice (`:|`); the contracts hold
    for every choice the random generator could make. */
module Quiz {
  import opened Seqs
  import opened Catalog

  // ---------------------------------------------------------------------------
  // Question keys
  // ---------------------------------------------------------------------------

  /** `vocabKey`: a vocabulary question is identified by its word. */
  function VocabKey(v: VocabItem): string { v.word }

  /** `exprKey`: an expression question is identified by its expression. */
  function ExprKey(e: ExpressionItem): string { e.expression }

  /** `conjKey`: verb, tense and person joined by underscores. */
  function ConjKey(c: ConjugationItem): string
  {
    c.verb + "_" + c.tense + "_" + c.person
  }

  /** The first n characters of s (`slice(0, n)`, `s[:n]`). */
  function Prefix(s: string, n: nat): (r: string)
    ensures |r| == Min(n, |s|) && r == s[..|r|]
  {
    if |s| <= n then s else s[..n]
  }

  /** `transKey`: the transform type, a bar, and the first 30 characters of the source. */
  function TransKey(t: GrammarTransform): string
  {
    t.transformType + "|" + Prefix(t.source, 30)
  }

  /** Joining with a separator that occurs in neither left part can be undone. */
  lemma SeparatorSplit(x: string, y: string, x': string, y': string, sep: char)
    requires sep !in x && sep !in x'
    requires x + [sep] + y == x' + [sep] + y'
    ensures x == x' && y == y'
  {
    var s := x + [sep] + y;
    if |x| < |x'| {
      SeparatorAt(x, sep, y);
      LeftPartAt(x', sep, y');
      assert false;
    } else if |x'| < |x| {
      SeparatorAt(x', sep, y');
      LeftPartAt(x, sep, y);
      assert false;
    }
    assert x == s[..|x|] == x';
    assert y == s[|x| + 1..] == y';
  }

  lemma SeparatorAt(x: string, sep: char, y: string)
    ensures (x + [sep] + y)[|x|] == sep
  {
  }

  lemma LeftPartAt(x: string, sep: char, y: string)
    ensures forall i :: 0 <= i < |x| ==> (x + [sep] + y)[i] == x[i]
  {
  }

  /** Conjugation keys identify the (verb, tense, person) triple as long as verb
      and tense contain no underscore. */
  lemma ConjKeyInjective(c: ConjugationItem, d: ConjugationItem)
    requires '_' !in c.verb && '_' !in c.tense && '_' !in d.verb && '_' !in d.tense
    ensures ConjKey(c) == ConjKey(d)
        <==> c.verb == d.verb && c.tense == d.tense && c.person == d.person
  {
    if ConjKey(c) == ConjKey(d) {
      assert ConjKey(c) == c.verb + ['_'] + (c.tense + "_" + c.person);
      assert ConjKey(d) == d.verb + ['_'] + (d.tense + "_" + d.person);
      SeparatorSplit(c.verb, c.tense + "_" + c.person, d.verb, d.tense + "_" + d.person, '_');
      SeparatorSplit(c.tense, c.person, d.tense, d.person, '_');
    }
  }

  /** With an underscore inside the verb, two different items share a key. */
  lemma ConjKeyCollision()
    ensures ConjKey(ConjugationItem("a_b", "c", "p", "x")) == ConjKey(ConjugationItem("a", "b_c", "p", "y"))
  {
    assert ConjKey(ConjugationItem("a_b", "c", "p", "x")) == "a_b_c_p";
    assert ConjKey(ConjugationItem("a", "b_c", "p", "y")) == "a_b_c_p";
  }

  /** Transform keys agree exactly when the types agree and the sources agree on
      their first 30 characters: transforms whose sources share a 30-character
      prefix share a key (and so a weak point). */
  lemma TransKeyIff(s: GrammarTransform, t: GrammarTransform)
    requires '|' !in s.transformType && '|' !in t.transformType
    ensures TransKey(s) == TransKey(t)
        <==> s.transformType == t.transformType && Prefix(s.source, 30) == Prefix(t.source, 30)
  {
    if TransKey(s) == TransKey(t) {
      assert TransKey(s) == s.transformType + ['|'] + Prefix(s.source, 30);
      assert TransKey(t) == t.transformType + ['|'] + Prefix(t.source, 30);
      SeparatorSplit(s.transformType, Prefix(s.source, 30), t.transformType, Prefix(t.source, 30), '|');
    }
  }

  /** With a bar inside the type, two transforms of different types share a key. */
  lemma TransKeyCollision()
    ensures TransKey(GrammarTransform("a|b", "c", "x")) == TransKey(GrammarTransform("a", "b|c", "y"))
  {
    assert Prefix("c", 30) == "c" && Prefix("b|c", 30) == "b|c";
    assert TransKey(GrammarTransform("a|b", "c", "x")) == "a|b|c";
    assert TransKey(GrammarTransform("a", "b|c", "y")) == "a|b|c";
  }

  // ---------------------------------------------------------------------------
  // Sampling and shuffling
  // ---------------------------------------------------------------------------

  /** `sample(arr, n)`: a partial Fisher-Yates shuffle of a copy; the first
      min(n, |arr|) elements of the copy are the sample.  (`random.sample` in the
      Python port makes the same promise.) */
  method Sample<T>(arr: seq<T>, n: nat) returns (r: seq<T>)
    ensures |r| == Min(n, |arr|)
    ensures multiset(r) <= multiset(arr)
    ensures n >= |arr| ==> multiset(r) == multiset(arr)
  {
    var copy := new T[|arr|](i requires 0 <= i < |arr| => arr[i]);
    assert copy[..] == arr;
    var count := Min(n, copy.Length);
    for i := 0 to count
      invariant multiset(copy[..]) == multiset(arr)
    {
      var j :| i <= j < copy.Length;
      SwapMultiset(copy[..], i, j);
      copy[i], copy[j] := copy[j], copy[i];
    }
    r := copy[..count];
    PrefixMultiset(copy[..], count);
    if n >= |arr| {
      assert r == copy[..];
    }
  }

  /** `shuffle(arr)`: in-place Fisher-Yates; the array keeps its elements. */
  method Shuffle<T>(a: array<T>)
    modifies a
    ensures multiset(a[..]) == multiset(old(a[..]))
  {
    var i := a.Length - 1;
    while i > 0
      invariant -1 <= i < a.Length
      invariant multiset(a[..]) == multiset(old(a[..]))
    {
      var j :| 0 <= j <= i;
      SwapMultiset(a[..], i, j);
      a[i], a[j] := a[j], a[i];
      i := i - 1;
    }
  }

  /** Shuffles a fresh array holding s and returns its contents. */
  method Shuffled<T>(s: seq<T>) returns (r: seq<T>)
    ensures multiset(r) == multiset(s)
  {
    var a := new T[|s|](i requires 0 <= i < |s| => s[i]);
    assert a[..] == s;
    Shuffle(a);
    r := a[..];
  }

  // ---------------------------------------------------------------------------
  // Proportional allocation
  // ---------------------------------------------------------------------------

  /** The two ports round and break ties differently. */
  datatype Port = TypeScript | Python

  /** The proportional share num/den rounded to an integer: `Math.round` (halves
      go up) in TypeScript, `round` (halves go to the even neighbour) in Python. */
  function RoundShare(num: nat, den: nat, port: Port): (r: nat)
    requires den > 0
  {
    match port
    case TypeScript => (2 * num + den) / (2 * den)
    case Python =>
      var q, rem := num / den, num % den;
      if 2 * rem > den then q + 1
      else if 2 * rem < den then q
      else if q % 2 == 0 then q else q + 1
  }

  /** The rounded share is a nearest integer to num/den, and at an exact half it
      is the upper neighbour in TypeScript and the even one in Python. */
  lemma RoundShareNearest(num: nat, den: nat, port: Port)
    requires den > 0
    ensures var r := RoundShare(num, den, port);
      2 * r * den - den <= 2 * num <= 2 * r * den + den
      && (port == TypeScript ==> 2 * num < 2 * r * den + den)
      && (port == Python && (2 * num == 2 * r * den - den || 2 * num == 2 * r * den + den) ==> r % 2 == 0)
  {
    match port
    case TypeScript => RoundHalfUp(num, den);
    case Python => RoundHalfEven(num, den);
  }

  lemma RoundHalfUp(num: nat, den: nat)
    requires den > 0
    ensures var r := (2 * num + den) / (2 * den);
      2 * r * den - den <= 2 * num < 2 * r * den + den
  {
    var m := 2 * num + den;
    var r := m / (2 * den);
    assert m == 2 * den * r + m % (2 * den);
  }

  lemma RoundHalfEven(num: nat, den: nat)
    requires den > 0
    ensures var r := RoundShare(num, den, Python);
      2 * r * den - den <= 2 * num <= 2 * r * den + den
      && ((2 * num == 2 * r * den - den || 2 * num == 2 * r * den + den) ==> r % 2 == 0)
  {
    var q, rem := num / den, num % den;
    var qd := q * den;
    assert num == qd + rem && 0 <= rem < den;
    assert 2 * q * den == 2 * qd;
    assert 2 * (q + 1) * den == 2 * qd + 2 * den;
  }

  /** The index of a largest value.  TypeScript's `reduce((a, b) => v[a] > v[b] ? a : b)`
      keeps the running best only when strictly larger, so ties go to the last
      index; Python's `max` keeps the first. */
  function ArgMax(vals: seq<int>, port: Port): (k: nat)
    requires |vals| > 0
    ensures k < |vals|
  {
    if |vals| == 1 then 0
    else
      var last := |vals| - 1;
      var a := ArgMax(vals[..last], port);
      match port
      case TypeScript => if vals[a] > vals[last] then a else last
      case Python => if vals[last] > vals[a] then last else a
  }

  /** ArgMax picks a largest value: the last of the largest in TypeScript, the
      first in Python. */
  lemma {:induction false} ArgMaxIsMax(vals: seq<int>, port: Port)
    requires |vals| > 0
    ensures var k := ArgMax(vals, port);
      (forall i :: 0 <= i < |vals| ==> vals[i] <= vals[k])
      && (port == TypeScript ==> forall i :: k < i < |vals| ==> vals[i] < vals[k])
      && (port == Python ==> forall i :: 0 <= i < k ==> vals[i] < vals[k])
  {
    if |vals| > 1 {
      var pre := vals[..|vals| - 1];
      ArgMaxIsMax(pre, port);
      assert forall i :: 0 <= i < |pre| ==> vals[i] == pre[i];
    }
  }

  /** What is left in each pool: `poolSizes[k] - alloc[k]`. */
  function Gaps(pools: seq<nat>, alloc: seq<nat>): (g: seq<int>)
    requires |alloc| == |pools|
    ensures |g| == |pools|
  {
    seq(|pools|, k requires 0 <= k < |pools| => pools[k] as int - alloc[k] as int)
  }

  /** Each allocation stays within its pool. */
  ghost predicate Within(alloc: seq<nat>, pools: seq<nat>)
  {
    |alloc| == |pools| && forall k :: 0 <= k < |pools| ==> alloc[k] <= pools[k]
  }

  /** One pool's rounded proportional share of the target, capped at its size. */
  function CappedShare(size: nat, total: nat, target: nat, port: Port): (r: nat)
    requires total > 0
    ensures r <= size
  {
    var share := RoundShare(size * target, total, port);
    if share <= size then share else size
  }

  /** The first pass: each pool's capped share. */
  function Initial(pools: seq<nat>, target: nat, port: Port): (a: seq<nat>)
    requires Sum(pools) > 0
    ensures Within(a, pools)
  {
    seq(|pools|, k requires 0 <= k < |pools| => CappedShare(pools[k], Sum(pools), target, port))
  }

  /** The top-up loop: while under target, add one to the pool with the most
      left; stop when that pool is exhausted. */
  function TopUp(pools: seq<nat>, alloc: seq<nat>, target: nat, port: Port): (r: seq<nat>)
    requires |pools| > 0 && Within(alloc, pools)
    ensures Within(r, pools)
    decreases target - Sum(alloc)
  {
    if Sum(alloc) >= target then alloc
    else
      var best := ArgMax(Gaps(pools, alloc), port);
      if alloc[best] < pools[best] then
        SumUpdate(alloc, best, alloc[best] + 1);
        TopUp(pools, alloc[best := alloc[best] + 1], target, port)
      else alloc
  }

  /** The trim loop: while over target, take one from the largest allocation;
      stop when that allocation is down to 1. */
  function Trim(alloc: seq<nat>, target: nat, port: Port): (r: seq<nat>)
    requires |alloc| > 0
    ensures |r| == |alloc|
    decreases Sum(alloc)
  {
    if Sum(alloc) <= target then alloc
    else
      var best := ArgMax(alloc, port);
      if alloc[best] > 1 then
        SumUpdate(alloc, best, alloc[best] - 1);
        Trim(alloc[best := alloc[best] - 1], target, port)
      else alloc
  }

  /** `allocate(poolSizes, target)` / `_allocate(pool_sizes, target)`, with the
      pools in key order: all zeros for empty pools, otherwise the initial
      shares, topped up, then trimmed. */
  function AllocSpec(pools: seq<nat>, target: nat, port: Port): (r: seq<nat>)
  {
    if Sum(pools) == 0 then Zeros(|pools|)
    else Trim(TopUp(pools, Initial(pools, target, port), target, port), target, port)
  }

  /** `allocate(poolSizes, target)`: the shares, the top-up loop and the trim
      loop, in that order. */
  method Allocate(pools: seq<nat>, target: nat, port: Port) returns (alloc: seq<nat>)
    ensures alloc == AllocSpec(pools, target, port)
  {
    var totalPool := Sum(pools);
    if totalPool == 0 {
      return Zeros(|pools|);
    }
    alloc := InitialShares(pools, totalPool, target, port);
    alloc := TopUpLoop(pools, alloc, target, port);
    alloc := TrimLoop(alloc, target, port);
  }

  /** The first loop: one rounded, capped share per pool. */
  method InitialShares(pools: seq<nat>, totalPool: nat, target: nat, port: Port) returns (alloc: seq<nat>)
    requires totalPool == Sum(pools) > 0
    ensures alloc == Initial(pools, target, port)
  {
    alloc := [];
    for k := 0 to |pools|
      invariant alloc == Initial(pools, target, port)[..k]
    {
      alloc := alloc + [CappedShare(pools[k], totalPool, target, port)];
    }
  }

  /** The top-up loop, keeping the running total in `current`. */
  method TopUpLoop(pools: seq<nat>, start: seq<nat>, target: nat, port: Port) returns (alloc: seq<nat>)
    requires |pools| > 0 && Within(start, pools)
    ensures alloc == TopUp(pools, start, target, port)
  {
    alloc := start;
    var current := Sum(alloc);
    while current < target
      invariant Within(alloc, pools) && current == Sum(alloc)
      invariant TopUp(pools, alloc, target, port) == TopUp(pools, start, target, port)
      decreases target - current
    {
      var best := ArgMax(Gaps(pools, alloc), port);
      if alloc[best] < pools[best] {
        TopUpAdvance(pools, alloc, target, port, best);
        WithinIncrement(alloc, pools, best);
        SumUpdate(alloc, best, alloc[best] + 1);
        alloc := alloc[best := alloc[best] + 1];
        current := current + 1;
      } else {
        TopUpStep(pools, alloc, target, port);
        break;
      }
    }
    if current >= target {
      TopUpOver(pools, alloc, target, port);
    }
  }

  /** One step of the top-up loop. */
  lemma TopUpStep(pools: seq<nat>, alloc: seq<nat>, target: nat, port: Port)
    requires |pools| > 0 && Within(alloc, pools) && Sum(alloc) < target
    ensures var best := ArgMax(Gaps(pools, alloc), port);
      TopUp(pools, alloc, target, port)
        == if alloc[best] < pools[best] then TopUp(pools, alloc[best := alloc[best] + 1], target, port)
           else alloc
  {
  }

  /** A step that adds one question keeps the top-up result unchanged. */
  lemma TopUpAdvance(pools: seq<nat>, alloc: seq<nat>, target: nat, port: Port, best: nat)
    requires |pools| > 0 && Within(alloc, pools) && Sum(alloc) < target
    requires best == ArgMax(Gaps(pools, alloc), port) && alloc[best] < pools[best]
    ensures TopUp(pools, alloc[best := alloc[best] + 1], target, port) == TopUp(pools, alloc, target, port)
  {
    TopUpStep(pools, alloc, target, port);
  }

  /** Adding one below a pool's size stays within the pools. */
  lemma WithinIncrement(alloc: seq<nat>, pools: seq<nat>, k: nat)
    requires Within(alloc, pools) && k < |pools| && alloc[k] < pools[k]
    ensures Within(alloc[k := alloc[k] + 1], pools)
  {
    var next := alloc[k := alloc[k] + 1];
    forall i | 0 <= i < |pools| ensures next[i] <= pools[i] {
      if i != k { assert next[i] == alloc[i]; }
    }
  }

  /** When the pool with the most left is full, every pool is full. */
  lemma ExhaustedPools(pools: seq<nat>, alloc: seq<nat>, port: Port)
    requires |pools| > 0 && Within(alloc, pools)
    requires var best := ArgMax(Gaps(pools, alloc), port); alloc[best] >= pools[best]
    ensures alloc == pools
  {
    var g := Gaps(pools, alloc);
    var best := ArgMax(g, port);
    ArgMaxIsMax(g, port);
    assert g[best] <= 0;
    forall k | 0 <= k < |pools| ensures alloc[k] == pools[k] {
      assert g[k] <= g[best];
    }
  }

  /** The trim loop, keeping the running total in `current`. */
  method TrimLoop(start: seq<nat>, target: nat, port: Port) returns (alloc: seq<nat>)
    requires |start| > 0
    ensures alloc == Trim(start, target, port)
  {
    alloc := start;
    var current := Sum(alloc);
    while current > target
      invariant |alloc| == |start| && current == Sum(alloc)
      invariant Trim(alloc, target, port) == Trim(start, target, port)
      decreases current
    {
      var best := ArgMax(alloc, port);
      if alloc[best] > 1 {
        SumUpdate(alloc, best, alloc[best] - 1);
        alloc := alloc[best := alloc[best] - 1];
        current := current - 1;
      } else {
        break;
      }
    }
  }

  /** Topping up from at most the target reaches the target, or exhausts every
      pool when the pools hold less than the target. */
  lemma {:induction false} TopUpSum(pools: seq<nat>, alloc: seq<nat>, target: nat, port: Port)
    requires |pools| > 0 && Within(alloc, pools) && Sum(alloc) <= target
    ensures Sum(TopUp(pools, alloc, target, port)) == Min(target, Sum(pools))
    decreases target - Sum(alloc)
  {
    if Sum(alloc) < target {
      var best := ArgMax(Gaps(pools, alloc), port);
      TopUpStep(pools, alloc, target, port);
      if alloc[best] < pools[best] {
        TopUpAdvance(pools, alloc, target, port, best);
        WithinIncrement(alloc, pools, best);
        SumUpdate(alloc, best, alloc[best] + 1);
        TopUpSum(pools, alloc[best := alloc[best] + 1], target, port);
      } else {
        ExhaustedPools(pools, alloc, port);
      }
    } else {
      TopUpOver(pools, alloc, target, port);
      SumMonotone(alloc, pools);
    }
  }

  /** Topping up does nothing to an allocation already over the target. */
  lemma TopUpOver(pools: seq<nat>, alloc: seq<nat>, target: nat, port: Port)
    requires |pools| > 0 && Within(alloc, pools) && Sum(alloc) >= target
    ensures TopUp(pools, alloc, target, port) == alloc
  {
  }

  /** Trimming stops at the target, or over it once every allocation is at
      most 1; and it never takes an allocation below 1. */
  lemma {:induction false} TrimResult(alloc: seq<nat>, target: nat, port: Port)
    requires |alloc| > 0
    ensures var r := Trim(alloc, target, port);
      (Sum(alloc) <= target ==> r == alloc)
      && (Sum(alloc) > target ==>
            Sum(r) == target || (Sum(r) > target && forall k :: 0 <= k < |r| ==> r[k] <= 1))
      && forall k :: 0 <= k < |r| ==> r[k] >= Min(alloc[k], 1)
    decreases Sum(alloc)
  {
    TrimStep(alloc, target, port);
    if Sum(alloc) > target {
      var best := ArgMax(alloc, port);
      if alloc[best] > 1 {
        var next := alloc[best := alloc[best] - 1];
        SumUpdate(alloc, best, alloc[best] - 1);
        TrimResult(next, target, port);
        forall k | 0 <= k < |alloc| ensures Min(next[k], 1) == Min(alloc[k], 1) {
          if k != best { assert next[k] == alloc[k]; }
        }
      } else {
        ArgMaxIsMax(alloc, port);
        forall k | 0 <= k < |alloc| ensures alloc[k] <= 1 {
          assert alloc[k] <= alloc[best];
        }
      }
    }
  }

  /** Trimming only lowers allocations. */
  lemma {:induction false} TrimLowers(alloc: seq<nat>, target: nat, port: Port)
    requires |alloc| > 0
    ensures var r := Trim(alloc, target, port);
      forall k :: 0 <= k < |r| ==> r[k] <= alloc[k]
    decreases Sum(alloc)
  {
    TrimStep(alloc, target, port);
    if Sum(alloc) > target {
      var best := ArgMax(alloc, port);
      if alloc[best] > 1 {
        var next := alloc[best := alloc[best] - 1];
        SumUpdate(alloc, best, alloc[best] - 1);
        TrimLowers(next, target, port);
        forall k | 0 <= k < |alloc| ensures next[k] <= alloc[k] {
          if k != best { assert next[k] == alloc[k]; }
        }
      }
    }
  }

  /** One step of the trim loop. */
  lemma TrimStep(alloc: seq<nat>, target: nat, port: Port)
    requires |alloc| > 0
    ensures Trim(alloc, target, port)
        == if Sum(alloc) <= target then alloc
           else
             var best := ArgMax(alloc, port);
             if alloc[best] > 1 then Trim(alloc[best := alloc[best] - 1], target, port) else alloc
  {
  }

  /** The allocation has one entry per pool, each between 0 and its pool's size;
      empty pools get all zeros. */
  lemma AllocBounds(pools: seq<nat>, target: nat, port: Port)
    ensures var r := AllocSpec(pools, target, port);
      |r| == |pools| && (forall k :: 0 <= k < |r| ==> r[k] <= pools[k])
      && (Sum(pools) == 0 ==> forall k :: 0 <= k < |r| ==> r[k] == 0)
  {
    if Sum(pools) > 0 {
      TrimLowers(TopUp(pools, Initial(pools, target, port), target, port), target, port);
    }
  }

  /** The allocation sums to min(target, total pool), except when rounding up
      overshot the target and trimming stopped with every allocation at most 1. */
  lemma AllocSum(pools: seq<nat>, target: nat, port: Port)
    ensures var r := AllocSpec(pools, target, port);
      Sum(r) == Min(target, Sum(pools))
      || (Sum(r) > target && forall k :: 0 <= k < |r| ==> r[k] <= 1)
  {
    if Sum(pools) > 0 {
      var a := Initial(pools, target, port);
      var t := TopUp(pools, a, target, port);
      if Sum(a) <= target {
        TopUpSum(pools, a, target, port);
      } else {
        SumMonotone(a, pools);
      }
      TrimResult(t, target, port);
    }
  }

  /** When the initial shares fall short of the target, the allocation sums to
      exactly min(target, total pool). */
  lemma AllocFillsShortfall(pools: seq<nat>, target: nat, port: Port)
    requires Sum(pools) > 0 && Sum(Initial(pools, target, port)) < target
    ensures Sum(AllocSpec(pools, target, port)) == Min(target, Sum(pools))
  {
    var a := Initial(pools, target, port);
    TopUpSum(pools, a, target, port);
    TrimResult(TopUp(pools, a, target, port), target, port);
  }

  /** Trimming never takes an allocation that the top-up left at 1 or more below 1. */
  lemma AllocTrimFloor(pools: seq<nat>, target: nat, port: Port)
    requires Sum(pools) > 0
    ensures var t := TopUp(pools, Initial(pools, target, port), target, port);
      var r := AllocSpec(pools, target, port);
      forall k :: 0 <= k < |r| ==> t[k] <= r[k] + (if t[k] >= 1 then t[k] - 1 else 0) && r[k] >= Min(t[k], 1)
  {
    TrimResult(TopUp(pools, Initial(pools, target, port), target, port), target, port);
  }

  /** Two pools of one with a target of one: `Math.round(0.5)` gives 1 each, and
      trimming stops at 1, so TypeScript hands out 2. */
  lemma AllocOvershootTypeScript()
    ensures AllocSpec([1, 1], 1, TypeScript) == [1, 1]
  {
    var pools: seq<nat> := [1, 1];
    assert Sum(pools) == 2;
    assert RoundShare(1, 2, TypeScript) == 1;
    var a := Initial(pools, 1, TypeScript);
    assert a == [1, 1];
    assert TopUp(pools, a, 1, TypeScript) == a;
    assert ArgMax(a, TypeScript) == 1;
  }

  /** The same pools in Python: `round(0.5)` is 0, and the top-up gives the one
      question to the first pool. */
  lemma AllocTieBreakPython()
    ensures AllocSpec([1, 1], 1, Python) == [1, 0]
  {
    var pools: seq<nat> := [1, 1];
    assert Sum(pools) == 2;
    assert RoundShare(1, 2, Python) == 0;
    var a := Initial(pools, 1, Python);
    assert a == [0, 0];
    assert Sum(a) == 0 by { assert a[..1] == [0]; }
    var g := Gaps(pools, a);
    assert g == [1, 1];
    assert ArgMax(g, Python) == 0 by {
      assert g[..1] == [1];
      assert ArgMax(g[..1], Python) == 0;
    }
    var b: seq<nat> := [1, 0];
    assert a[0 := 1] == b;
    assert Sum(b) == 1 by { assert b[..1] == [1]; }
    TopUpStep(pools, a, 1, Python);
    TopUpOver(pools, b, 1, Python);
    assert TopUp(pools, a, 1, Python) == b;
    assert Trim(b, 1, Python) == b;
  }

  /** Three pools of one with a target of two: each share rounds to 1 in both
      ports and nothing can be trimmed, so 3 questions are handed out. */
  lemma AllocOvershootPython()
    ensures AllocSpec([1, 1, 1], 2, Python) == [1, 1, 1]
  {
    var pools: seq<nat> := [1, 1, 1];
    assert Sum(pools) == 3 by {
      var one: seq<nat> := [1];
      var two: seq<nat> := [1, 1];
      assert Sum(one) == 1 by { assert one[..0] == []; }
      assert Sum(two) == 2 by { assert two[..1] == one; }
      assert pools[..2] == two;
    }
    assert RoundShare(2, 3, Python) == 1;
    var a := Initial(pools, 2, Python);
    assert a == pools;
    TopUpOver(pools, a, 2, Python);
    assert ArgMax(a, Python) == 0 by {
      assert a[..2] == [1, 1];
      assert a[..2][..1] == [1];
    }
  }

  // ---------------------------------------------------------------------------
  // Weak-biased selection
  // ---------------------------------------------------------------------------

  /** Filtering keeps a sequence whose every element passes. */
  lemma {:induction false} FilterAll<T>(s: seq<T>, p: T -> bool)
    requires forall i :: 0 <= i < |s| ==> p(s[i])
    ensures Filter(s, p) == s
  {
    if s != [] {
      FilterAll(s[1..], p);
      assert s == [s[0]] + s[1..];
    }
  }

  /** Filtering empties a sequence whose every element fails, and rejecting
      keeps all of it. */
  lemma {:induction false} FilterNone<T>(s: seq<T>, p: T -> bool)
    requires forall i :: 0 <= i < |s| ==> !p(s[i])
    ensures Filter(s, p) == [] && Reject(s, p) == s
  {
    if s != [] {
      FilterNone(s[1..], p);
    }
  }

  /** Every element of a sub-multiset of Filter(s, p) passes p. */
  lemma DrawnFromFilter<T>(r: seq<T>, s: seq<T>, p: T -> bool)
    requires multiset(r) <= multiset(Filter(s, p))
    ensures forall i :: 0 <= i < |r| ==> p(r[i])
  {
    forall i | 0 <= i < |r| ensures p(r[i]) {
      assert r[i] in multiset(r);
      FilterMember(s, p, r[i]);
    }
  }

  /** Every element of a sub-multiset of Reject(s, p) fails p. */
  lemma DrawnFromReject<T>(r: seq<T>, s: seq<T>, p: T -> bool)
    requires multiset(r) <= multiset(Reject(s, p))
    ensures forall i :: 0 <= i < |r| ==> !p(r[i])
  {
    forall i | 0 <= i < |r| ensures !p(r[i]) {
      assert r[i] in multiset(r);
      var rej := Reject(s, p);
      assert r[i] in multiset(rej);
      var j :| 0 <= j < |rej| && rej[j] == r[i];
    }
  }

  /** How many weak items a selection takes: as many as there are, up to both quotas. */
  function WeakCount<T>(items: seq<T>, isWeak: T -> bool, quota: nat, weakQuota: nat): nat
  {
    Min(Min(weakQuota, |Filter(items, isWeak)|), quota)
  }

  /** The weak test of the selection: the item's key is one of the weak keys. */
  function InKeys<T>(keys: set<string>, key: T -> string): T -> bool
  {
    it => key(it) in keys
  }

  /** What a weak-biased selection r from items is: it holds WeakCount weak
      items, then normal items up to the quota (or as many as there are), and
      nothing the pool does not hold; when the weak items fit in both quotas,
      all of them are in. */
  ghost predicate Selection<T>(r: seq<T>, items: seq<T>, isWeak: T -> bool, quota: nat, weakQuota: nat)
  {
    var nWeak := WeakCount(items, isWeak, quota, weakQuota);
    |Filter(r, isWeak)| == nWeak
    && |r| == nWeak + Min(quota - nWeak, |Reject(items, isWeak)|)
    && multiset(r) <= multiset(items)
    && (|Filter(items, isWeak)| <= Min(weakQuota, quota)
        ==> multiset(Filter(r, isWeak)) == multiset(Filter(items, isWeak)))
  }

  /** Without weak items in the pool, a selection is a plain sample: quota
      items, or the whole pool when it is smaller, and none of them weak. */
  lemma SelectionNoWeak<T>(r: seq<T>, items: seq<T>, isWeak: T -> bool, quota: nat, weakQuota: nat)
    requires Selection(r, items, isWeak, quota, weakQuota)
    requires forall i :: 0 <= i < |items| ==> !isWeak(items[i])
    ensures |r| == Min(quota, |items|)
    ensures multiset(r) <= multiset(items)
    ensures Filter(r, isWeak) == []
  {
    FilterNone(items, isWeak);
    assert WeakCount(items, isWeak, quota, weakQuota) == 0;
    assert |Filter(r, isWeak)| == 0;
  }

  /** `splitWeakAndNormal(items, keyFn, weakKeys, quota, weakQuota)`, with
      `isWeak(it)` standing for `weakKeys.has(keyFn(it))`: up to `weakQuota`
      weak items, then normal items up to `quota`, shuffled together. */
  method SplitWeakAndNormal<T>(items: seq<T>, isWeak: T -> bool, quota: nat, weakQuota: nat)
    returns (r: seq<T>)
    ensures Selection(r, items, isWeak, quota, weakQuota)
  {
    var weakItems := Filter(items, isWeak);
    var normalItems := Reject(items, isWeak);
    FilterPartition(items, isWeak);

    var nWeak := Min(Min(weakQuota, |weakItems|), quota);
    assert nWeak == WeakCount(items, isWeak, quota, weakQuota) <= |weakItems|;
    var selectedWeak: seq<T> := [];
    if nWeak > 0 {
      selectedWeak := Sample(weakItems, nWeak);
    }
    assert |selectedWeak| == nWeak;

    var nNormal := Min(quota - nWeak, |normalItems|);
    assert nNormal <= |normalItems|;
    var selectedNormal: seq<T> := [];
    if nNormal > 0 {
      selectedNormal := Sample(normalItems, nNormal);
    }
    assert |selectedNormal| == nNormal;

    r := Shuffled(selectedWeak + selectedNormal);
    SelectionCounts(items, isWeak, selectedWeak, selectedNormal, r);
    if |weakItems| <= Min(weakQuota, quota) {
      assert multiset(selectedWeak) == multiset(weakItems);
    }
  }

  /** A shuffle of weak items drawn from the weak ones and normal items drawn
      from the normal ones has as many weak items as were drawn, and draws
      nothing the pool does not hold. */
  lemma SelectionCounts<T>(items: seq<T>, isWeak: T -> bool, sw: seq<T>, sn: seq<T>, r: seq<T>)
    requires multiset(sw) <= multiset(Filter(items, isWeak))
    requires multiset(sn) <= multiset(Reject(items, isWeak))
    requires multiset(r) == multiset(sw + sn)
    ensures |r| == |sw| + |sn|
    ensures multiset(Filter(r, isWeak)) == multiset(sw) && |Filter(r, isWeak)| == |sw|
    ensures multiset(r) <= multiset(items)
  {
    var result := sw + sn;
    FilterPartition(items, isWeak);
    DrawnFromFilter(sw, items, isWeak);
    DrawnFromReject(sn, items, isWeak);
    FilterAll(sw, isWeak);
    FilterNone(sn, isWeak);
    FilterConcat(sw, sn, isWeak);
    FilterPermutation(result, r, isWeak);
    assert |Filter(r, isWeak)| == |multiset(Filter(r, isWeak))| == |multiset(sw)|;
    assert |r| == |multiset(r)| == |multiset(result)|;
  }

  /** The quota is filled only from normal items: with only weak items, a quota
      of 5 and a weak quota of 2, just 2 items come back. */
  lemma SplitUnderfillsWithoutNormalItems<T>(r: seq<T>, items: seq<T>, isWeak: T -> bool)
    requires |items| >= 5 && forall i :: 0 <= i < |items| ==> isWeak(items[i])
    requires Selection(r, items, isWeak, 5, 2)
    ensures |r| == 2
  {
    FilterAll(items, isWeak);
    FilterPartition(items, isWeak);
  }

  /** A selection never exceeds its quota. */
  lemma SelectionWithinQuota<T>(r: seq<T>, items: seq<T>, isWeak: T -> bool, quota: nat, weakQuota: nat)
    requires Selection(r, items, isWeak, quota, weakQuota)
    ensures |r| <= quota && |r| <= |items|
  {
    FilterPartition(items, isWeak);
  }

  /** A selection fills its quota whenever there are enough normal items to
      make up for the weak items the weak quota leaves out. */
  lemma SelectionFills<T>(r: seq<T>, items: seq<T>, isWeak: T -> bool, quota: nat, weakQuota: nat)
    requires Selection(r, items, isWeak, quota, weakQuota)
    requires quota <= WeakCount(items, isWeak, quota, weakQuota) + |Reject(items, isWeak)|
    ensures |r| == quota
  {
  }

  /** With both quotas at least the pool size, the selection is a shuffle of
      the whole pool. */
  lemma SelectionAll<T>(r: seq<T>, items: seq<T>, isWeak: T -> bool, quota: nat, weakQuota: nat)
    requires Selection(r, items, isWeak, quota, weakQuota)
    requires quota >= |items| && weakQuota >= |items|
    ensures multiset(r) == multiset(items)
  {
    FilterPartition(items, isWeak);
    SubMultisetFull(r, items);
  }
}
