/** Facts about sequences of numbers: distinct ones, permutations and their inverses. */
module Sequences {
  ghost predicate Distinct(s: seq<nat>) {
    forall i, j :: 0 <= i < j < |s| ==> s[i] != s[j]
  }

  ghost predicate BelowAll(s: seq<nat>, n: nat) {
    forall i :: 0 <= i < |s| ==> s[i] < n
  }

  /** Distinct numbers below `n` are at most `n` many. */
  lemma {:induction false} Pigeonhole(s: seq<nat>, n: nat)
    requires Distinct(s) && BelowAll(s, n)
    ensures |s| <= n
    decreases n
  {
    if |s| > 0 {
      assert s[0] < n;
      if n - 1 in s {
        var k :| 0 <= k < |s| && s[k] == n - 1;
        Pigeonhole(s[..k] + s[k + 1..], n - 1);
      } else {
        Pigeonhole(s, n - 1);
      }
    }
  }

  lemma RepeatCounted<T>(b: seq<T>, i: nat, j: nat)
    requires i < j < |b| && b[i] == b[j]
    ensures multiset(b)[b[i]] >= 2
  {
    assert b == b[..i] + [b[i]] + b[i + 1..j] + [b[j]] + b[j + 1..];
  }

  lemma {:induction false} DistinctCounts(a: seq<nat>, x: nat)
    requires Distinct(a)
    ensures multiset(a)[x] <= 1
  {
    if a != [] {
      assert a == [a[0]] + a[1..];
      DistinctCounts(a[1..], x);
    }
  }

  lemma PermutedDistinct(a: seq<nat>, b: seq<nat>)
    requires Distinct(a) && multiset(b) <= multiset(a)
    ensures Distinct(b)
  {
    forall i, j | 0 <= i < j < |b| ensures b[i] != b[j] {
      if b[i] == b[j] {
        RepeatCounted(b, i, j);
        DistinctCounts(a, b[i]);
      }
    }
  }

  ghost predicate IsPermutation(s: seq<nat>, n: nat) {
    |s| == n && Distinct(s) && BelowAll(s, n)
  }

  lemma SameMembers<T>(s: seq<T>, t: seq<T>)
    requires multiset(s) == multiset(t)
    ensures forall x :: x in s <==> x in t
  {
    forall x ensures x in s <==> x in t {
      assert x in s <==> x in multiset(s);
      assert x in t <==> x in multiset(t);
    }
  }

  lemma PermutationOnto(m: seq<nat>, n: nat, x: nat)
    requires IsPermutation(m, n) && x < n
    ensures x in m
  {
    if x !in m {
      Pigeonhole(m + [x], n);
    }
  }

  method Inverse(m: seq<nat>) returns (inverse: seq<nat>)
    requires IsPermutation(m, |m|)
    ensures |inverse| == |m| && BelowAll(inverse, |m|)
    ensures forall i :: 0 <= i < |m| ==> inverse[m[i]] == i && m[inverse[i]] == i
  {
    inverse := seq(|m|, _ => 0);
    for i := 0 to |m|
      invariant |inverse| == |m| && BelowAll(inverse, |m|)
      invariant forall j :: 0 <= j < i ==> inverse[m[j]] == j
    {
      inverse := inverse[m[i] := i];
    }
    forall x | 0 <= x < |m| ensures m[inverse[x]] == x {
      PermutationOnto(m, |m|, x);
      var j :| 0 <= j < |m| && m[j] == x;
      assert inverse[m[j]] == j;
    }
  }
}
