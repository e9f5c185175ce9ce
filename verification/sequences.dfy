/** Facts about integer key sequences: first occurrences, de-duplication in first-seen order, counts. */
module Sequences {

  /** Position of the first occurrence of `x` in `s`. */
  function FirstIndex(s: seq<int>, x: int): (k: nat)
    requires x in s
    ensures k < |s| && s[k] == x
    ensures x !in s[..k]
  {
    if s[0] == x then 0
    else
      var k' := FirstIndex(s[1..], x);
      assert s[..k' + 1] == [s[0]] + s[1..][..k'];
      k' + 1
  }

  /** An occurrence with no earlier occurrence is the first one. */
  lemma FirstIndexAt(s: seq<int>, i: nat, x: int)
    requires i < |s| && s[i] == x && x !in s[..i]
    ensures FirstIndex(s, x) == i
  {
    var k := FirstIndex(s, x);
    assert forall j :: 0 <= j < i ==> s[..i][j] == s[j];
    assert forall j :: 0 <= j < k ==> s[..k][j] == s[j];
  }

  /** Extending a sequence does not move the first occurrence of a key it already holds. */
  lemma FirstIndexOfPrefix(s: seq<int>, n: nat, x: int)
    requires n <= |s| && x in s[..n]
    ensures x in s && FirstIndex(s[..n], x) == FirstIndex(s, x)
  {
    var k := FirstIndex(s[..n], x);
    assert s[..n][..k] == s[..k];
    FirstIndexAt(s, k, x);
  }

  /** The keys of `s`, each once, in the order of their first occurrence. */
  function Distinct(s: seq<int>): (d: seq<int>)
    ensures forall x :: x in d <==> x in s
    ensures forall i, j :: 0 <= i < j < |d| ==> d[i] != d[j]
    decreases |s|
  {
    if s == [] then []
    else
      var p := Distinct(s[..|s| - 1]);
      var x := s[|s| - 1];
      assert s == s[..|s| - 1] + [x];
      if x in p then p else p + [x]
  }

  /** A prefix one element longer. */
  lemma PrefixSnoc(s: seq<int>, i: nat)
    requires i < |s|
    ensures s[..i + 1] == s[..i] + [s[i]]
  {
  }

  /** One step of Distinct over a growing prefix. */
  lemma DistinctSnoc(s: seq<int>, i: nat)
    requires i < |s|
    ensures Distinct(s[..i + 1]) == if s[i] in s[..i] then Distinct(s[..i]) else Distinct(s[..i]) + [s[i]]
  {
    assert s[..i + 1][..i] == s[..i];
  }

  /** Distinct lists keys strictly in the order of their first occurrence in `s`. */
  lemma {:induction false} DistinctInFirstSeenOrder(s: seq<int>)
    ensures forall i, j :: 0 <= i < j < |Distinct(s)| ==>
              FirstIndex(s, Distinct(s)[i]) < FirstIndex(s, Distinct(s)[j])
    decreases |s|
  {
    if s != [] {
      var n := |s| - 1;
      var p := s[..n];
      var x := s[n];
      DistinctInFirstSeenOrder(p);
      var d := Distinct(s);
      var dp := Distinct(p);
      assert s[..n] == p;
      forall k | 0 <= k < |dp|
        ensures FirstIndex(s, dp[k]) == FirstIndex(p, dp[k]) < n
      {
        FirstIndexOfPrefix(s, n, dp[k]);
      }
      if x !in p {
        FirstIndexAt(s, n, x);
      }
    }
  }

  /** Number of occurrences of `x` in `s`. */
  function CountOf(s: seq<int>, x: int): (n: nat)
    ensures n <= |s|
    ensures n == 0 <==> x !in s
    decreases |s|
  {
    if s == [] then 0
    else
      assert s == s[..|s| - 1] + [s[|s| - 1]];
      CountOf(s[..|s| - 1], x) + (if s[|s| - 1] == x then 1 else 0)
  }

  /** The sum of the occurrence counts in `s` of the keys listed in `d`. */
  function SumCounts(d: seq<int>, s: seq<int>): nat
    decreases |d|
  {
    if d == [] then 0 else SumCounts(d[..|d| - 1], s) + CountOf(s, d[|d| - 1])
  }

  lemma {:induction false} SumCountsSnoc(d: seq<int>, s: seq<int>, x: int)
    requires forall i, j :: 0 <= i < j < |d| ==> d[i] != d[j]
    ensures SumCounts(d, s + [x]) == SumCounts(d, s) + (if x in d then 1 else 0)
    decreases |d|
  {
    assert (s + [x])[..|s|] == s;
    if d != [] {
      var p := d[..|d| - 1];
      SumCountsSnoc(p, s, x);
      assert d == p + [d[|d| - 1]];
    }
  }

  /** Every position of `s` is counted exactly once under its key in Distinct(s). */
  lemma {:induction false} DistinctCountsCover(s: seq<int>)
    ensures SumCounts(Distinct(s), s) == |s|
    decreases |s|
  {
    if s != [] {
      var n := |s| - 1;
      var p := s[..n];
      var x := s[n];
      assert s == p + [x];
      DistinctCountsCover(p);
      SumCountsSnoc(Distinct(p), p, x);
      if x !in p {
        var d := Distinct(p) + [x];
        assert d[..|d| - 1] == Distinct(p);
        assert (p + [x])[..|p|] == p;
      }
    }
  }

  /** The positions among the first `n` of `s` that hold `x`, in increasing order. */
  function Positions(s: seq<int>, n: nat, x: int): (ps: seq<nat>)
    requires n <= |s|
    ensures forall j :: 0 <= j < |ps| ==> ps[j] < n && s[ps[j]] == x
    ensures forall j, k :: 0 <= j < k < |ps| ==> ps[j] < ps[k]
    ensures forall p :: 0 <= p < n && s[p] == x ==> p in ps
    decreases n
  {
    if n == 0 then [] else Positions(s, n - 1, x) + (if s[n - 1] == x then [n - 1] else [])
  }

  /** A non-empty run of one key de-duplicates to that key alone. */
  lemma {:induction false} DistinctOfConstant(s: seq<int>, x: int)
    requires s != [] && forall k :: 0 <= k < |s| ==> s[k] == x
    ensures Distinct(s) == [x]
    decreases |s|
  {
    var p := s[..|s| - 1];
    if p != [] {
      DistinctOfConstant(p, x);
      assert p[0] == x;
    }
  }
}
