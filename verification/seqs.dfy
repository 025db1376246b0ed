/** Sequence facts shared by the builder and the discriminators: distinctness,
    the "sort, dedup, count" idiom, and the minimum and maximum of a list. */
module Seqs {

  predicate Distinct(s: seq<int>)
  {
    forall i, j :: 0 <= i < |s| && 0 <= j < |s| && i != j ==> s[i] != s[j]
  }

  /** A duplicate-free list whose entries are all equal has at most one entry. */
  lemma DistinctConstant(s: seq<int>)
    requires Distinct(s)
    requires forall i, j :: 0 <= i < |s| && 0 <= j < |s| ==> s[i] == s[j]
    ensures |s| <= 1
  {
    DistinctHead(s);
  }

  /** The first two entries of a duplicate-free list differ. */
  lemma DistinctHead(s: seq<int>)
    requires Distinct(s)
    ensures |s| >= 2 ==> s[0] != s[1]
  {
  }

  /** Strictly increasing lists are duplicate-free. */
  lemma {:induction false} IncreasingDistinct(s: seq<int>)
    requires forall i :: 0 < i < |s| ==> s[i - 1] < s[i]
    ensures Distinct(s)
    decreases |s|
  {
    if |s| > 1 {
      var t := s[..|s| - 1];
      IncreasingDistinct(t);
      forall i | 0 <= i < |s| - 1
        ensures s[i] < s[|s| - 1]
      {
        IncreasingBelowLast(s, i);
      }
    }
  }

  lemma {:induction false} IncreasingBelowLast(s: seq<int>, i: nat)
    requires forall k :: 0 < k < |s| ==> s[k - 1] < s[k]
    requires i < |s| - 1
    ensures s[i] < s[|s| - 1]
    decreases |s| - i
  {
    if i < |s| - 2 {
      IncreasingBelowLast(s, i + 1);
    }
  }

  /** Some two entries of `s` differ. */
  predicate HasTwoDistinct(s: seq<int>)
  {
    exists i, j :: 0 <= i < |s| && 0 <= j < |s| && s[i] != s[j]
  }

  /** The set of values occurring in `s`. */
  function Elements(s: seq<int>): (e: set<int>)
    ensures forall x :: x in e <==> x in s
  {
    if |s| == 0 then {} else {s[0]} + Elements(s[1..])
  }

  /** Length of `s` after `sort` and `dedup`: the number of distinct values. */
  function DistinctCount(s: seq<int>): nat
  {
    |Elements(s)|
  }

  lemma {:induction false} DistinctCountAtMostLength(s: seq<int>)
    ensures DistinctCount(s) <= |s|
  {
    if |s| > 0 {
      DistinctCountAtMostLength(s[1..]);
    }
  }

  /** A list is duplicate-free when its head is new and its tail is duplicate-free. */
  lemma DistinctCons(s: seq<int>)
    requires |s| > 0
    ensures Distinct(s) <==> s[0] !in s[1..] && Distinct(s[1..])
  {
    var t := s[1..];
    if s[0] !in t && Distinct(t) {
      forall i, j | 0 <= i < |s| && 0 <= j < |s| && i != j
        ensures s[i] != s[j]
      {
        if i > 0 && j > 0 {
          assert s[i] == t[i - 1] && s[j] == t[j - 1];
        } else if i == 0 {
          assert s[j] == t[j - 1];
        } else {
          assert s[i] == t[i - 1];
        }
      }
    }
    if Distinct(s) {
      forall i, j | 0 <= i < |t| && 0 <= j < |t| && i != j
        ensures t[i] != t[j]
      {
        assert t[i] == s[i + 1] && t[j] == s[j + 1];
      }
    }
  }

  /** Deduplication removes nothing exactly when no value repeats. */
  lemma {:induction false} DistinctCountIsLength(s: seq<int>)
    ensures DistinctCount(s) == |s| <==> Distinct(s)
  {
    if |s| > 0 {
      var t := s[1..];
      DistinctCountIsLength(t);
      DistinctCountAtMostLength(t);
      DistinctCons(s);
      assert Elements(s) == {s[0]} + Elements(t);
      if s[0] in t {
        assert Elements(s) == Elements(t);
      } else {
        assert s[0] !in Elements(t);
        assert |Elements(s)| == |Elements(t)| + 1;
      }
    }
  }

  /** At least two distinct values survive deduplication exactly when two entries differ. */
  lemma DistinctCountAtLeastTwo(s: seq<int>)
    ensures DistinctCount(s) >= 2 <==> HasTwoDistinct(s)
  {
    if HasTwoDistinct(s) {
      var i, j :| 0 <= i < |s| && 0 <= j < |s| && s[i] != s[j];
      TwoMembers(Elements(s), s[i], s[j]);
    }
    if DistinctCount(s) >= 2 {
      var a := s[0];
      var b := OtherMember(Elements(s), a);
      var j :| 0 <= j < |s| && s[j] == b;
      assert s[0] != s[j];
    }
  }

  lemma TwoMembers(e: set<int>, a: int, b: int)
    requires a in e && b in e && a != b
    ensures |e| >= 2
  {
    assert |{a, b}| == 2;
    SubsetCard({a, b}, e);
  }

  lemma OtherMember(e: set<int>, a: int) returns (b: int)
    requires |e| >= 2
    ensures b in e && b != a
  {
    if forall x :: x in e ==> x == a {
      SubsetCard(e, {a});
      assert false;
    }
    b :| b in e && b != a;
  }

  lemma SubsetCard(a: set<int>, b: set<int>)
    requires a <= b
    ensures |a| <= |b|
  {
    assert b == a + (b - a);
  }

  /** The smallest entry of a nonempty list (`iter().min().unwrap()`). */
  function MinOf(s: seq<nat>): (m: nat)
    requires |s| > 0
    ensures m in s
    ensures forall i :: 0 <= i < |s| ==> m <= s[i]
  {
    if |s| == 1 then s[0]
    else
      var rest := MinOf(s[1..]);
      assert forall i :: 1 <= i < |s| ==> s[i] == s[1..][i - 1];
      if s[0] <= rest then s[0] else rest
  }

  /** The largest entry of a nonempty list (`iter().max().unwrap()`). */
  function MaxOf(s: seq<nat>): (m: nat)
    requires |s| > 0
    ensures m in s
    ensures forall i :: 0 <= i < |s| ==> s[i] <= m
  {
    if |s| == 1 then s[0]
    else
      var rest := MaxOf(s[1..]);
      assert forall i :: 1 <= i < |s| ==> s[i] == s[1..][i - 1];
      if s[0] >= rest then s[0] else rest
  }
}
