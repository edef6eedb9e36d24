/** Generic facts about sequences and multisets used by the rest of the model:
    sums, minima, filtering by a predicate, and permutations by swapping. */
module Seqs {

  function Min(a: int, b: int): int { if a <= b then a else b }

  function Max(a: int, b: int): int { if a >= b then a else b }

  /** Sum of a sequence of naturals. */
  function Sum(s: seq<nat>): nat
  {
    if s == [] then 0 else Sum(s[..|s| - 1]) + s[|s| - 1]
  }

  /** Changing one entry changes the sum by the difference. */
  lemma {:induction false} SumUpdate(s: seq<nat>, k: nat, v: nat)
    requires k < |s|
    ensures Sum(s[k := v]) + s[k] == Sum(s) + v
  {
    var t := s[k := v];
    if k < |s| - 1 {
      assert t[..|t| - 1] == s[..|s| - 1][k := v];
      SumUpdate(s[..|s| - 1], k, v);
    } else {
      assert t[..|t| - 1] == s[..|s| - 1];
    }
  }

  /** Pointwise smaller sequences have smaller sums. */
  lemma {:induction false} SumMonotone(s: seq<nat>, t: seq<nat>)
    requires |s| == |t|
    requires forall k :: 0 <= k < |s| ==> s[k] <= t[k]
    ensures Sum(s) <= Sum(t)
  {
    if s != [] {
      SumMonotone(s[..|s| - 1], t[..|t| - 1]);
    }
  }

  /** A sum of naturals is zero exactly when every entry is. */
  lemma {:induction false} SumZero(s: seq<nat>)
    ensures Sum(s) == 0 <==> forall k :: 0 <= k < |s| ==> s[k] == 0
  {
    if s != [] {
      SumZero(s[..|s| - 1]);
      assert forall k :: 0 <= k < |s| - 1 ==> s[..|s| - 1][k] == s[k];
    }
  }

  /** A sum of entries that are each at most one is at most the length. */
  lemma {:induction false} SumAtMostOnes(s: seq<nat>)
    requires forall k :: 0 <= k < |s| ==> s[k] <= 1
    ensures Sum(s) <= |s|
  {
    if s != [] {
      SumAtMostOnes(s[..|s| - 1]);
    }
  }

  /** The constant sequence of n zeros. */
  function Zeros(n: nat): (r: seq<nat>)
    ensures |r| == n && Sum(r) == 0
    ensures forall k :: 0 <= k < n ==> r[k] == 0
  {
    if n == 0 then [] else
      var r := Zeros(n - 1) + [0];
      assert r[..n - 1] == Zeros(n - 1);
      r
  }

  /** The elements of s that satisfy p, in their original order. */
  function Filter<T>(s: seq<T>, p: T -> bool): (r: seq<T>)
    ensures |r| <= |s|
    ensures forall i :: 0 <= i < |r| ==> p(r[i])
  {
    if s == [] then []
    else
      if p(s[0]) then [s[0]] + Filter(s[1..], p) else Filter(s[1..], p)
  }

  /** An element is kept exactly when it occurs in s and satisfies p. */
  lemma {:induction false} FilterMember<T>(s: seq<T>, p: T -> bool, x: T)
    ensures x in Filter(s, p) <==> x in s && p(x)
  {
    if s != [] {
      FilterMember(s[1..], p, x);
      assert x in s <==> x == s[0] || x in s[1..] by {
        assert s == [s[0]] + s[1..];
      }
      if p(s[0]) {
        assert Filter(s, p) == [s[0]] + Filter(s[1..], p);
      } else {
        assert Filter(s, p) == Filter(s[1..], p);
      }
    }
  }

  /** The elements of s that do not satisfy p, in their original order. */
  function Reject<T>(s: seq<T>, p: T -> bool): (r: seq<T>)
    ensures |r| <= |s|
    ensures forall i :: 0 <= i < |r| ==> !p(r[i])
  {
    if s == [] then []
    else
      if p(s[0]) then Reject(s[1..], p) else [s[0]] + Reject(s[1..], p)
  }

  /** Filtering distributes over concatenation. */
  lemma {:induction false} FilterConcat<T>(s: seq<T>, t: seq<T>, p: T -> bool)
    ensures Filter(s + t, p) == Filter(s, p) + Filter(t, p)
  {
    if s == [] {
      assert s + t == t;
    } else {
      assert (s + t)[0] == s[0];
      assert (s + t)[1..] == s[1..] + t;
      FilterConcat(s[1..], t, p);
    }
  }

  /** Appending an element p rejects does not change the filtered sequence. */
  lemma FilterAppendDropped<T>(s: seq<T>, x: T, p: T -> bool)
    requires !p(x)
    ensures Filter(s + [x], p) == Filter(s, p)
  {
    FilterConcat(s, [x], p);
    assert Filter([x], p) == Filter([x][1..], p);
  }

  /** Replacing an element p rejects by another one p rejects does not change
      the filtered sequence. */
  lemma FilterUpdateDropped<T>(s: seq<T>, idx: nat, x: T, p: T -> bool)
    requires idx < |s| && !p(s[idx]) && !p(x)
    ensures Filter(s[idx := x], p) == Filter(s, p)
  {
    var pre, post := s[..idx], s[idx + 1..];
    assert s == pre + [s[idx]] + post;
    assert s[idx := x] == pre + [x] + post;
    FilterConcat(pre + [s[idx]], post, p);
    FilterConcat(pre + [x], post, p);
    FilterAppendDropped(pre, s[idx], p);
    FilterAppendDropped(pre, x, p);
  }

  /** Removing an element p rejects does not change the filtered sequence. */
  lemma {:induction false} FilterRemoveDropped<T>(s: seq<T>, idx: nat, p: T -> bool)
    requires idx < |s| && !p(s[idx])
    ensures Filter(s[..idx] + s[idx + 1..], p) == Filter(s, p)
  {
    var t := s[..idx] + s[idx + 1..];
    if idx == 0 {
      assert t == s[1..];
    } else {
      FilterRemoveDropped(s[1..], idx - 1, p);
      assert t[0] == s[0] && t[1..] == s[1..][..idx - 1] + s[1..][idx..];
    }
  }

  /** Two predicates that agree on the elements of s keep the same elements. */
  lemma {:induction false} FilterCongruent<T>(s: seq<T>, p: T -> bool, q: T -> bool)
    requires forall i :: 0 <= i < |s| ==> p(s[i]) == q(s[i])
    ensures Filter(s, p) == Filter(s, q)
  {
    if s != [] {
      FilterCongruent(s[1..], p, q);
    }
  }

  /** Every element is either kept or rejected: the two parts make up s. */
  lemma {:induction false} FilterPartition<T>(s: seq<T>, p: T -> bool)
    ensures multiset(Filter(s, p)) + multiset(Reject(s, p)) == multiset(s)
    ensures |Filter(s, p)| + |Reject(s, p)| == |s|
  {
    if s != [] {
      FilterPartition(s[1..], p);
      assert multiset(s) == multiset{s[0]} + multiset(s[1..]) by {
        assert s == [s[0]] + s[1..];
      }
      if p(s[0]) {
        assert Filter(s, p) == [s[0]] + Filter(s[1..], p);
        assert Reject(s, p) == Reject(s[1..], p);
      } else {
        assert Filter(s, p) == Filter(s[1..], p);
        assert Reject(s, p) == [s[0]] + Reject(s[1..], p);
      }
    }
  }

  /** Filtering a permutation gives a permutation of the filtered sequence. */
  lemma {:induction false} FilterPermutation<T>(s: seq<T>, t: seq<T>, p: T -> bool)
    requires multiset(s) == multiset(t)
    ensures multiset(Filter(s, p)) == multiset(Filter(t, p))
    decreases |s|
  {
    if s == [] {
      assert |t| == |multiset(t)| == 0;
    } else {
      var x := s[0];
      var a, b := PickFirst(s, t);
      FilterPermutation(s[1..], a + b, p);
      FilterConcat([x], s[1..], p);
      FilterConcat(a + [x], b, p);
      FilterConcat(a, [x], p);
      FilterConcat(a, b, p);
      assert multiset(Filter(s, p)) == multiset(Filter([x], p)) + multiset(Filter(a, p)) + multiset(Filter(b, p));
      assert multiset(Filter(t, p)) == multiset(Filter(a, p)) + multiset(Filter([x], p)) + multiset(Filter(b, p));
    }
  }

  /** The first element of s sits somewhere in a permutation t of s; around it
      lies a permutation of the rest of s. */
  lemma PickFirst<T>(s: seq<T>, t: seq<T>) returns (a: seq<T>, b: seq<T>)
    requires s != [] && multiset(s) == multiset(t)
    ensures t == a + [s[0]] + b && s == [s[0]] + s[1..]
    ensures multiset(s[1..]) == multiset(a + b)
  {
    var x := s[0];
    assert x in multiset(t);
    var i :| 0 <= i < |t| && t[i] == x;
    a, b := t[..i], t[i + 1..];
    assert t == a + [x] + b;
    assert s == [x] + s[1..];
    assert multiset(t) == multiset([x] + (a + b));
    MultisetCancel(s[1..], a + b, x);
  }

  /** Removing one common element from two equal multisets keeps them equal. */
  lemma MultisetCancel<T>(u: seq<T>, v: seq<T>, x: T)
    requires multiset([x] + u) == multiset([x] + v)
    ensures multiset(u) == multiset(v)
  {
    assert multiset([x] + u) == multiset{x} + multiset(u);
    assert multiset([x] + v) == multiset{x} + multiset(v);
    assert forall y :: multiset(u)[y] == multiset([x] + u)[y] - (if y == x then 1 else 0);
    assert forall y :: multiset(v)[y] == multiset([x] + v)[y] - (if y == x then 1 else 0);
  }

  /** Every element of a sequence whose multiset is below that of s occurs in s. */
  lemma SubMultisetMembers<T>(r: seq<T>, s: seq<T>)
    requires multiset(r) <= multiset(s)
    ensures forall x :: x in r ==> x in s
  {
    forall x | x in r ensures x in s {
      assert x in multiset(r);
    }
  }

  /** A prefix is a sub-multiset of the whole sequence. */
  lemma PrefixMultiset<T>(s: seq<T>, k: nat)
    requires k <= |s|
    ensures multiset(s[..k]) <= multiset(s)
  {
    assert s == s[..k] + s[k..];
  }

  /** Exchanging two positions keeps the multiset of elements. */
  lemma SwapMultiset<T>(s: seq<T>, i: nat, j: nat)
    requires i < |s| && j < |s|
    ensures multiset(s[i := s[j]][j := s[i]]) == multiset(s)
  {
  }

  /** The elements of a sequence are pairwise distinct. */
  ghost predicate Distinct<T>(s: seq<T>)
  {
    forall i, j :: 0 <= i < j < |s| ==> s[i] != s[j]
  }

  /** A sequence of distinct elements has as many elements as its set. */
  lemma {:induction false} DistinctCard<T>(s: seq<T>)
    requires Distinct(s)
    ensures |set x | x in s| == |s|
  {
    if s != [] {
      var t := s[..|s| - 1];
      assert forall i, j :: 0 <= i < j < |t| ==> t[i] == s[i] && t[j] == s[j];
      DistinctCard(t);
      var last := s[|s| - 1];
      assert (set x | x in s) == (set x | x in t) + {last} by {
        assert s == t + [last];
      }
      assert last !in (set x | x in t);
    }
  }

  /** A subset has at most as many elements as its superset. */
  lemma {:induction false} SubsetCard<T>(a: set<T>, b: set<T>)
    requires a <= b
    ensures |a| <= |b|
    decreases |a|
  {
    if a != {} {
      var x :| x in a;
      SubsetCard(a - {x}, b - {x});
    }
  }

  /** A sub-multiset of the same size is the whole multiset. */
  lemma SubMultisetFull<T>(r: seq<T>, s: seq<T>)
    requires multiset(r) <= multiset(s) && |r| == |s|
    ensures multiset(r) == multiset(s)
  {
    var d := multiset(s) - multiset(r);
    assert multiset(s) == multiset(r) + d;
    assert |d| == 0;
    assert d == multiset{};
  }

  /** f applied to every element of s. */
  function MapSeq<A, B>(s: seq<A>, f: A -> B): (r: seq<B>)
    ensures |r| == |s| && forall i :: 0 <= i < |s| ==> r[i] == f(s[i])
  {
    seq(|s|, i requires 0 <= i < |s| => f(s[i]))
  }

  /** Mapping distributes over concatenation. */
  lemma MapConcatSeq<A, B>(s: seq<A>, t: seq<A>, f: A -> B)
    ensures MapSeq(s + t, f) == MapSeq(s, f) + MapSeq(t, f)
  {
  }

  /** Mapping two permutations of each other gives permutations of each other. */
  lemma {:induction false} MapMultiset<A, B>(s: seq<A>, t: seq<A>, f: A -> B)
    requires multiset(s) == multiset(t)
    ensures multiset(MapSeq(s, f)) == multiset(MapSeq(t, f))
    decreases |s|
  {
    if s == [] {
      assert |t| == |multiset(t)| == 0;
    } else {
      var x := s[0];
      var a, b := PickFirst(s, t);
      MapMultiset(s[1..], a + b, f);
      MapConcatSeq([x], s[1..], f);
      MapConcatSeq(a + [x], b, f);
      MapConcatSeq(a, [x], f);
      MapConcatSeq(a, b, f);
      assert multiset(MapSeq(s, f)) == multiset(MapSeq([x], f)) + multiset(MapSeq(a, f)) + multiset(MapSeq(b, f));
      assert multiset(MapSeq(t, f)) == multiset(MapSeq(a, f)) + multiset(MapSeq([x], f)) + multiset(MapSeq(b, f));
    }
  }
}
