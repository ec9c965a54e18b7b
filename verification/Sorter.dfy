/** The in-place sorts of sorter.rs. Elements are compared by `less`; `rank` numbers the
    elements of `dom` in that order. */
module Sorter {

  const BINARY_SORT_THRESHOLD := 20

  ghost predicate Orders<T(!new)>(less: (T, T) -> bool, rank: T -> int, dom: set<T>) {
    forall x, y :: x in dom && y in dom ==> (less(x, y) <==> rank(x) < rank(y))
  }

  ghost predicate InDom<T>(s: seq<T>, from: int, to: int, dom: set<T>)
    requires 0 <= from <= to <= |s|
  {
    forall i :: from <= i < to ==> s[i] in dom
  }

  ghost predicate Sorted<T>(s: seq<T>, rank: T -> int, from: int, to: int)
    requires 0 <= from <= to <= |s|
  {
    forall i, j :: from <= i < j < to ==> rank(s[i]) <= rank(s[j])
  }

  /** `t` has the elements of `s`, and differs from it only in `[from, to)`. */
  ghost predicate PermutedWithin<T>(s: seq<T>, t: seq<T>, from: int, to: int) {
    && |s| == |t| && 0 <= from <= to <= |s| && multiset(s) == multiset(t)
    && (forall i :: 0 <= i < from || to <= i < |s| ==> s[i] == t[i])
  }

  // ----- stability -----

  /** The elements of rank `r`, in their order. */
  ghost function Filter<T>(s: seq<T>, rank: T -> int, r: int): seq<T> {
    if s == [] then [] else (if rank(s[0]) == r then [s[0]] else []) + Filter(s[1..], rank, r)
  }

  /** Elements of equal rank stand in the same order in both. */
  ghost predicate Stable<T>(s: seq<T>, t: seq<T>, rank: T -> int) {
    forall r :: Filter(s, rank, r) == Filter(t, rank, r)
  }

  lemma {:induction false} FilterConcat<T>(s: seq<T>, t: seq<T>, rank: T -> int, r: int, u: seq<T>)
    requires u == s + t
    ensures Filter(u, rank, r) == Filter(s, rank, r) + Filter(t, rank, r)
    decreases |s|
  {
    if s == [] {
      assert u == t;
    } else {
      var h := if rank(s[0]) == r then [s[0]] else [];
      assert u[0] == s[0] && u[1..] == s[1..] + t;
      FilterConcat(s[1..], t, rank, r, u[1..]);
      Reassociate(h, Filter(s[1..], rank, r), Filter(t, rank, r));
    }
  }

  lemma Reassociate<T>(a: seq<T>, b: seq<T>, c: seq<T>)
    ensures (a + b) + c == a + (b + c)
  {
  }

  lemma {:induction false} FilterNone<T>(s: seq<T>, rank: T -> int, r: int)
    requires forall x :: x in s ==> rank(x) != r
    ensures Filter(s, rank, r) == []
  {
    if s != [] {
      assert s[0] in s;
      FilterNone(s[1..], rank, r);
    }
  }

  ghost predicate NoTies<T>(a: seq<T>, b: seq<T>, rank: T -> int) {
    forall x, y :: x in a && y in b ==> rank(x) != rank(y)
  }

  /** Exchanging two neighbouring blocks without ties between them is stable. */
  lemma ExchangeStable<T>(p: seq<T>, a: seq<T>, b: seq<T>, q: seq<T>, rank: T -> int, s: seq<T>, t: seq<T>)
    requires NoTies(a, b, rank)
    requires s == p + (a + (b + q)) && t == p + (b + (a + q))
    ensures Stable(s, t, rank) && multiset(s) == multiset(t)
  {
    forall r ensures Filter(s, rank, r) == Filter(t, rank, r) {
      ExchangeFilter(p, a, b, q, rank, r, s, t);
    }
  }

  lemma ExchangeFilter<T>(p: seq<T>, a: seq<T>, b: seq<T>, q: seq<T>, rank: T -> int, r: int, s: seq<T>, t: seq<T>)
    requires NoTies(a, b, rank)
    requires s == p + (a + (b + q)) && t == p + (b + (a + q))
    ensures Filter(s, rank, r) == Filter(t, rank, r)
  {
    hide Filter;
    var fp, fa, fb, fq := Filter(p, rank, r), Filter(a, rank, r), Filter(b, rank, r), Filter(q, rank, r);
    assert Filter(s, rank, r) == fp + (fa + (fb + fq)) by {
      FilterConcat(p, a + (b + q), rank, r, s);
      FilterConcat(a, b + q, rank, r, a + (b + q));
      FilterConcat(b, q, rank, r, b + q);
    }
    assert Filter(t, rank, r) == fp + (fb + (fa + fq)) by {
      FilterConcat(p, b + (a + q), rank, r, t);
      FilterConcat(b, a + q, rank, r, b + (a + q));
      FilterConcat(a, q, rank, r, a + q);
    }
    if exists x :: x in a && rank(x) == r {
      FilterNone(b, rank, r);
    } else {
      FilterNone(a, rank, r);
    }
  }

  method Swap<T>(a: array<T>, i: nat, j: nat)
    requires i < a.Length && j < a.Length
    modifies a
    ensures a[..] == old(a[..])[i := old(a[j])][j := old(a[i])]
    ensures multiset(a[..]) == multiset(old(a[..]))
  {
    a[i], a[j] := a[j], a[i];
  }

  // ----- binary_sort -----

  /** `t` is `s` with the element at `i` moved down to `l`. */
  ghost predicate MovedDown<T>(s: seq<T>, t: seq<T>, l: int, i: int) {
    && |s| == |t| && 0 <= l <= i < |s| && t[l] == s[i]
    && (forall k :: 0 <= k < l || i < k < |s| ==> t[k] == s[k])
    && (forall k :: l < k <= i ==> t[k] == s[k - 1])
  }

  method InsertDown<T>(a: array<T>, l: nat, i: nat)
    requires l <= i < a.Length
    modifies a
    ensures MovedDown(old(a[..]), a[..], l, i)
  {
    var j := i;
    while j > l
      invariant l <= j <= i && MovedDown(old(a[..]), a[..], j, i)
    {
      Swap(a, j - 1, j);
      j := j - 1;
    }
  }

  lemma MovedDownStable<T>(s: seq<T>, t: seq<T>, l: int, i: int, rank: T -> int)
    requires MovedDown(s, t, l, i) && forall k :: l <= k < i ==> rank(s[k]) > rank(s[i])
    ensures Stable(s, t, rank) && multiset(s) == multiset(t)
  {
    var p, m, x, q := s[..l], s[l..i], [s[i]], s[i + 1..];
    assert s == p + (m + (x + q));
    assert t == p + (x + (m + q));
    ExchangeStable(p, m, x, q, rank, s, t);
  }

  lemma MovedDownSorted<T>(s: seq<T>, t: seq<T>, from: int, l: int, i: int, rank: T -> int)
    requires MovedDown(s, t, l, i) && 0 <= from <= l && Sorted(s, rank, from, i)
    requires forall k :: from <= k < l ==> rank(s[k]) <= rank(s[i])
    requires forall k :: l <= k < i ==> rank(s[k]) > rank(s[i])
    ensures Sorted(t, rank, from, i + 1)
  {
  }

  /** Where the pivot at `i` belongs in the sorted range before it, after all its equals. */
  method InsertionPoint<T(!new)>(a: array<T>, less: (T, T) -> bool, ghost rank: T -> int, ghost dom: set<T>, from: nat,
                                 i: nat)
    returns (l: nat)
    requires from <= i < a.Length && Orders(less, rank, dom) && InDom(a[..], from, i + 1, dom)
      && Sorted(a[..], rank, from, i)
    ensures from <= l <= i
    ensures forall k :: from <= k < l ==> rank(a[k]) <= rank(a[i])
    ensures forall k :: l <= k < i ==> rank(a[k]) > rank(a[i])
  {
    l := from;
    var h: int := i - 1;
    while l <= h
      invariant from <= l <= h + 1 <= i
      invariant forall k :: from <= k < l ==> rank(a[k]) <= rank(a[i])
      invariant forall k :: h < k < i ==> rank(a[k]) > rank(a[i])
    {
      var mid := (l + h) / 2;
      assert a[..][mid] in dom && a[..][i] in dom;
      if less(a[i], a[mid]) {
        forall k | mid <= k < i ensures rank(a[k]) > rank(a[i]) {
          assert mid == k || rank(a[..][mid]) <= rank(a[..][k]);
        }
        h := mid - 1;
      } else {
        forall k | from <= k <= mid ensures rank(a[k]) <= rank(a[i]) {
          assert mid == k || rank(a[..][k]) <= rank(a[..][mid]);
        }
        l := mid + 1;
      }
    }
  }

  ghost predicate StableWithin<T>(s: seq<T>, t: seq<T>, rank: T -> int, from: int, to: int) {
    PermutedWithin(s, t, from, to) && Stable(s, t, rank)
  }

  lemma StableWithinStep<T>(s: seq<T>, t: seq<T>, u: seq<T>, rank: T -> int, from: int, to: int)
    requires StableWithin(s, t, rank, from, to) && |t| == |u| && Stable(t, u, rank) && multiset(t) == multiset(u)
    requires forall i :: 0 <= i < from || to <= i < |t| ==> t[i] == u[i]
    ensures StableWithin(s, u, rank, from, to)
  {
    forall r ensures Filter(s, rank, r) == Filter(u, rank, r) {
      assert Filter(s, rank, r) == Filter(t, rank, r);
    }
  }

  lemma MovedDownInDom<T>(s: seq<T>, t: seq<T>, l: int, i: int, from: int, to: int, dom: set<T>)
    requires MovedDown(s, t, l, i) && 0 <= from <= l && i < to <= |s| && InDom(s, from, to, dom)
    ensures InDom(t, from, to, dom)
  {
  }

  /** Binary insertion sort: sorted, and stable. */
  method BinarySort<T(!new)>(a: array<T>, less: (T, T) -> bool, ghost rank: T -> int, ghost dom: set<T>, from: nat,
                             to: nat)
    requires from <= to <= a.Length && Orders(less, rank, dom) && InDom(a[..], from, to, dom)
    modifies a
    ensures Sorted(a[..], rank, from, to) && InDom(a[..], from, to, dom)
    ensures StableWithin(old(a[..]), a[..], rank, from, to)
  {
    var i := from + 1;
    while i < to
      invariant from < i && (i <= to || to == from)
      invariant Sorted(a[..], rank, from, if i < to then i else to) && InDom(a[..], from, to, dom)
      invariant StableWithin(old(a[..]), a[..], rank, from, to)
    {
      var l := InsertionPoint(a, less, rank, dom, from, i);
      ghost var s := a[..];
      InsertDown(a, l, i);
      ghost var t := a[..];
      MovedDownStable(s, t, l, i, rank);
      MovedDownSorted(s, t, from, l, i, rank);
      MovedDownInDom(s, t, l, i, from, to, dom);
      StableWithinStep(old(a[..]), s, t, rank, from, to);
      i := i + 1;
    }
  }

  // ----- rotate -----

  /** `t` is `s` with `[from, to)` turned around. */
  ghost predicate ReversedWithin<T>(s: seq<T>, t: seq<T>, from: int, to: int) {
    && |s| == |t| && 0 <= from <= to <= |s|
    && (forall k :: 0 <= k < from || to <= k < |s| ==> t[k] == s[k])
    && (forall k :: from <= k < to ==> t[k] == s[from + to - 1 - k])
  }

  method Reverse<T>(a: array<T>, from: nat, to: nat)
    requires from <= to <= a.Length
    modifies a
    ensures ReversedWithin(old(a[..]), a[..], from, to)
  {
    var f: int, t: int := from, to - 1;
    while f < t
      invariant from <= f && f + t == from + to - 1 && f <= t + 1
      invariant forall k :: 0 <= k < from || to <= k < a.Length || f <= k <= t ==> a[k] == old(a[k])
      invariant forall k :: from <= k < f || t < k < to ==> a[k] == old(a[from + to - 1 - k])
    {
      Swap(a, f, t);
      f := f + 1;
      t := t - 1;
    }
  }

  /** `t` is `s` with the blocks `[low, mid)` and `[mid, high)` exchanged. */
  ghost predicate Rotated<T>(s: seq<T>, t: seq<T>, low: int, mid: int, high: int) {
    && |s| == |t| && 0 <= low <= mid <= high <= |s|
    && (forall k :: 0 <= k < low || high <= k < |s| ==> t[k] == s[k])
    && (forall k :: low <= k < low + high - mid ==> t[k] == s[k + mid - low])
    && (forall k :: low + high - mid <= k < high ==> t[k] == s[k - (high - mid)])
  }

  method Rotate<T>(a: array<T>, low: nat, mid: nat, high: nat)
    requires low <= mid <= high <= a.Length
    modifies a
    ensures Rotated(old(a[..]), a[..], low, mid, high)
  {
    if low == mid || mid == high {
      return;
    }
    if mid - low == high - mid {
      ExchangeEqual(a, low, mid, high);
    } else {
      ghost var s := a[..];
      Reverse(a, low, mid);
      ghost var s1 := a[..];
      Reverse(a, mid, high);
      ghost var s2 := a[..];
      Reverse(a, low, high);
      ThreeReversals(s, s1, s2, a[..], low, mid, high);
    }
  }

  method ExchangeEqual<T>(a: array<T>, low: nat, mid: nat, high: nat)
    requires low <= mid <= high <= a.Length && mid - low == high - mid
    modifies a
    ensures Rotated(old(a[..]), a[..], low, mid, high)
  {
    var l, m := low, mid;
    while m < high
      invariant low <= l && mid <= m <= high && m - l == mid - low
      invariant forall k :: 0 <= k < low || l <= k < mid || m <= k < a.Length ==> a[k] == old(a[k])
      invariant forall k :: low <= k < l ==> a[k] == old(a[k + mid - low])
      invariant forall k :: mid <= k < m ==> a[k] == old(a[k - (high - mid)])
    {
      Swap(a, l, m);
      l := l + 1;
      m := m + 1;
    }
  }

  lemma ThreeReversals<T>(s: seq<T>, s1: seq<T>, s2: seq<T>, t: seq<T>, low: int, mid: int, high: int)
    requires ReversedWithin(s, s1, low, mid) && ReversedWithin(s1, s2, mid, high) && ReversedWithin(s2, t, low, high)
    requires low <= mid <= high
    ensures Rotated(s, t, low, mid, high)
  {
    forall k | low <= k < high
      ensures k < low + high - mid ==> t[k] == s[k + mid - low]
      ensures k >= low + high - mid ==> t[k] == s[k - (high - mid)]
    {
      var k2 := low + high - 1 - k;
      assert t[k] == s2[k2];
      if k2 >= mid {
        assert s2[k2] == s1[mid + high - 1 - k2] == s[mid + high - 1 - k2];
      } else {
        assert s2[k2] == s1[k2] == s[low + mid - 1 - k2];
      }
    }
  }

  /** A rotation is stable when the exchanged blocks have no ties. */
  lemma RotatedStable<T>(s: seq<T>, t: seq<T>, low: int, mid: int, high: int, rank: T -> int)
    requires Rotated(s, t, low, mid, high) && NoTies(s[low..mid], s[mid..high], rank)
    ensures Stable(s, t, rank) && multiset(s) == multiset(t)
  {
    hide NoTies, Stable;
    var p, a, b, q := s[..low], s[low..mid], s[mid..high], s[high..];
    assert s == p + (a + (b + q));
    assert t == p + (b + (a + q));
    ExchangeStable(p, a, b, q, rank, s, t);
  }

  // ----- lower and upper -----

  /** The first index of the sorted range `[from, to)` whose element is not below that at `val`. */
  method Lower<T(!new)>(a: array<T>, less: (T, T) -> bool, ghost rank: T -> int, ghost dom: set<T>, from: nat, to: nat,
                        val: nat)
    returns (r: nat)
    requires from <= to <= a.Length && val < a.Length && Orders(less, rank, dom)
    requires InDom(a[..], from, to, dom) && a[val] in dom && Sorted(a[..], rank, from, to)
    ensures from <= r <= to
    ensures forall k :: from <= k < r ==> rank(a[k]) < rank(a[val])
    ensures forall k :: r <= k < to ==> rank(a[k]) >= rank(a[val])
  {
    r := from;
    var len := to - from;
    while len > 0
      invariant from <= r <= r + len <= to
      invariant forall k :: from <= k < r ==> rank(a[k]) < rank(a[val])
      invariant forall k :: r + len <= k < to ==> rank(a[k]) >= rank(a[val])
      decreases len
    {
      var half := len / 2;
      var mid := r + half;
      assert a[..][mid] in dom;
      assert forall k :: from <= k < mid ==> rank(a[..][k]) <= rank(a[..][mid]);
      assert forall k :: mid < k < to ==> rank(a[..][mid]) <= rank(a[..][k]);
      if less(a[mid], a[val]) {
        r := mid + 1;
        len := len - half - 1;
      } else {
        len := half;
      }
    }
  }

  /** The first index of the sorted range `[from, to)` whose element is above that at `val`. */
  method Upper<T(!new)>(a: array<T>, less: (T, T) -> bool, ghost rank: T -> int, ghost dom: set<T>, from: nat, to: nat,
                        val: nat)
    returns (r: nat)
    requires from <= to <= a.Length && val < a.Length && Orders(less, rank, dom)
    requires InDom(a[..], from, to, dom) && a[val] in dom && Sorted(a[..], rank, from, to)
    ensures from <= r <= to
    ensures forall k :: from <= k < r ==> rank(a[k]) <= rank(a[val])
    ensures forall k :: r <= k < to ==> rank(a[k]) > rank(a[val])
  {
    r := from;
    var len := to - from;
    while len > 0
      invariant from <= r <= r + len <= to
      invariant forall k :: from <= k < r ==> rank(a[k]) <= rank(a[val])
      invariant forall k :: r + len <= k < to ==> rank(a[k]) > rank(a[val])
      decreases len
    {
      var half := len / 2;
      var mid := r + half;
      assert a[..][mid] in dom;
      assert forall k :: from <= k < mid ==> rank(a[..][k]) <= rank(a[..][mid]);
      assert forall k :: mid < k < to ==> rank(a[..][mid]) <= rank(a[..][k]);
      if less(a[val], a[mid]) {
        len := half;
      } else {
        r := mid + 1;
        len := len - half - 1;
      }
    }
  }

  // ----- merge_in_place -----

  ghost function Between<T>(dom: set<T>, rank: T -> int, lo: int, hi: int): set<T> {
    set x | x in dom && lo <= rank(x) <= hi
  }

  ghost function UpTo<T>(dom: set<T>, rank: T -> int, hi: int): set<T> {
    set x | x in dom && rank(x) <= hi
  }

  ghost function FromOn<T>(dom: set<T>, rank: T -> int, lo: int): set<T> {
    set x | x in dom && lo <= rank(x)
  }

  lemma StableTrans<T>(s: seq<T>, t: seq<T>, u: seq<T>, rank: T -> int, from: int, to: int, f: int, e: int)
    requires StableWithin(s, t, rank, from, to) && StableWithin(t, u, rank, f, e) && from <= f && e <= to
    ensures StableWithin(s, u, rank, from, to)
  {
    StableWithinStep(s, t, u, rank, from, to);
  }

  lemma RotatedStableWithin<T>(s: seq<T>, t: seq<T>, from: int, low: int, mid: int, high: int, to: int, rank: T -> int,
                               v: int)
    requires Rotated(s, t, low, mid, high) && SplitAt(s, rank, from, low, mid, high, to, v)
    ensures StableWithin(s, t, rank, from, to)
  {
    RotatedStable(s, t, low, mid, high, rank);
  }

  lemma JoinSorted<T>(t: seq<T>, rank: T -> int, from: int, mid: int, to: int, dom: set<T>, v: int)
    requires 0 <= from <= mid <= to <= |t| && Sorted(t, rank, from, mid) && Sorted(t, rank, mid, to)
    requires InDom(t, from, mid, UpTo(dom, rank, v)) && InDom(t, mid, to, FromOn(dom, rank, v))
    ensures Sorted(t, rank, from, to) && InDom(t, from, to, dom)
  {
    forall i, j | from <= i < j < to ensures rank(t[i]) <= rank(t[j]) {
      if i < mid <= j { assert t[i] in UpTo(dom, rank, v) && t[j] in FromOn(dom, rank, v); }
    }
  }

  /** What merging needs: two sorted neighbours in a range the order covers. */
  ghost predicate Mergeable<T(!new)>(s: seq<T>, less: (T, T) -> bool, rank: T -> int, dom: set<T>, from: int, mid: int,
                                     to: int)
  {
    && 0 <= from <= mid <= to <= |s| && Orders(less, rank, dom) && InDom(s, from, to, dom)
    && Sorted(s, rank, from, mid) && Sorted(s, rank, mid, to)
  }

  ghost predicate Merged<T>(s: seq<T>, t: seq<T>, rank: T -> int, dom: set<T>, from: int, to: int) {
    StableWithin(s, t, rank, from, to) && Sorted(t, rank, from, to) && InDom(t, from, to, dom)
  }

  /** Merges two sorted neighbours in place, by trimming what is already in place and then
      cutting, rotating and merging the halves. */
  method MergeInPlace<T(!new)>(a: array<T>, less: (T, T) -> bool, ghost rank: T -> int, ghost dom: set<T>, from: nat,
                               mid: nat, to: nat)
    requires Mergeable(a[..], less, rank, dom, from, mid, to)
    modifies a
    ensures Merged(old(a[..]), a[..], rank, dom, from, to)
    decreases (to - from), 1
  {
    ghost var s := a[..];
    if from == mid || mid == to || !less(a[mid], a[mid - 1]) {
      AlreadyMerged(s, less, rank, dom, from, mid, to);
      return;
    } else if to - from == 2 {
      Swap(a, mid - 1, mid);
      SwapIsMerge(s, a[..], less, rank, dom, from);
      return;
    }
    var f, t := Trim(a, less, rank, dom, from, mid, to);
    ghost var lo, hi := rank(a[mid]), rank(a[mid - 1]);
    TrimmedBounds(s, less, rank, dom, from, mid, to, f, t);
    MergeCut(a, less, rank, Between(dom, rank, lo, hi), f, mid, t, to - from);
    Untrim(s, a[..], rank, dom, from, mid, to, f, t, lo, hi);
  }

  lemma AlreadyMerged<T(!new)>(s: seq<T>, less: (T, T) -> bool, rank: T -> int, dom: set<T>, from: nat, mid: nat,
                               to: nat)
    requires Mergeable(s, less, rank, dom, from, mid, to)
    requires from == mid || mid == to || !less(s[mid], s[mid - 1])
    ensures Merged(s, s, rank, dom, from, to)
  {
    forall i, j | from <= i < j < to ensures rank(s[i]) <= rank(s[j]) {
      if i < mid <= j {
        assert rank(s[i]) <= rank(s[mid - 1]) && rank(s[mid]) <= rank(s[j]);
      }
    }
  }

  lemma SwapIsMerge<T(!new)>(s: seq<T>, t: seq<T>, less: (T, T) -> bool, rank: T -> int, dom: set<T>, from: nat)
    requires Mergeable(s, less, rank, dom, from, from + 1, from + 2) && less(s[from + 1], s[from])
    requires t == s[from := s[from + 1]][from + 1 := s[from]]
    ensures Merged(s, t, rank, dom, from, from + 2)
  {
    assert Rotated(s, t, from, from + 1, from + 2);
    assert s[from..from + 1] == [s[from]] && s[from + 1..from + 2] == [s[from + 1]];
    RotatedStable(s, t, from, from + 1, from + 2, rank);
  }

  /** Skips what stands in place already at both ends. */
  method Trim<T(!new)>(a: array<T>, less: (T, T) -> bool, ghost rank: T -> int, ghost dom: set<T>, from: nat, mid: nat,
                       to: nat)
    returns (f: nat, t: nat)
    requires Mergeable(a[..], less, rank, dom, from, mid, to) && from < mid < to && less(a[mid], a[mid - 1])
    ensures from <= f < mid < t <= to && rank(a[mid]) < rank(a[f]) && rank(a[t - 1]) < rank(a[mid - 1])
    ensures forall k :: from <= k < f ==> rank(a[k]) <= rank(a[mid])
    ensures forall k :: t <= k < to ==> rank(a[k]) >= rank(a[mid - 1])
  {
    assert a[..][mid] in dom && a[..][mid - 1] in dom;
    f, t := from, to;
    while !less(a[mid], a[f])
      invariant from <= f < mid
      invariant forall k :: from <= k < f ==> rank(a[k]) <= rank(a[mid])
      decreases mid - f
    {
      assert a[..][f] in dom;
      f := f + 1;
    }
    assert a[..][f] in dom;
    while !less(a[t - 1], a[mid - 1])
      invariant mid < t <= to
      invariant forall k :: t <= k < to ==> rank(a[k]) >= rank(a[mid - 1])
      decreases t
    {
      assert a[..][t - 1] in dom;
      t := t - 1;
    }
    assert a[..][t - 1] in dom;
  }

  lemma TrimmedBounds<T(!new)>(s: seq<T>, less: (T, T) -> bool, rank: T -> int, dom: set<T>, from: nat, mid: nat,
                               to: nat, f: nat, t: nat)
    requires Mergeable(s, less, rank, dom, from, mid, to) && from <= f < mid < t <= to
    requires rank(s[mid]) < rank(s[f]) && rank(s[t - 1]) < rank(s[mid - 1])
    ensures Mergeable(s, less, rank, Between(dom, rank, rank(s[mid]), rank(s[mid - 1])), f, mid, t)
  {
    forall i | f <= i < t ensures s[i] in Between(dom, rank, rank(s[mid]), rank(s[mid - 1])) {
      assert i < mid ==> rank(s[f]) <= rank(s[i]) <= rank(s[mid - 1]);
      assert i >= mid ==> rank(s[mid]) <= rank(s[i]) <= rank(s[t - 1]);
    }
  }

  lemma Untrim<T>(s: seq<T>, u: seq<T>, rank: T -> int, dom: set<T>, from: nat, mid: nat, to: nat, f: nat, t: nat,
                  lo: int, hi: int)
    requires from <= f < mid < t <= to <= |s| && Merged(s, u, rank, Between(dom, rank, lo, hi), f, t)
      && InDom(s, from, to, dom)
    requires Sorted(s, rank, from, mid) && Sorted(s, rank, mid, to)
    requires forall k :: from <= k < f ==> rank(s[k]) <= lo
    requires forall k :: t <= k < to ==> rank(s[k]) >= hi
    ensures Merged(s, u, rank, dom, from, to)
  {
    forall i, j | from <= i < j < to ensures rank(u[i]) <= rank(u[j]) {
      assert f <= i < t ==> u[i] in Between(dom, rank, lo, hi);
      assert f <= j < t ==> u[j] in Between(dom, rank, lo, hi);
      if i < f && j >= t { assert u[f] in Between(dom, rank, lo, hi); }
    }
    forall i | from <= i < to ensures u[i] in dom {
      assert f <= i < t ==> u[i] in Between(dom, rank, lo, hi);
    }
  }

  /** The cuts `low` and `high` split the range around the rank `v`. */
  ghost predicate SplitAt<T>(s: seq<T>, rank: T -> int, from: int, low: int, mid: int, high: int, to: int, v: int) {
    && 0 <= from <= low <= mid <= high <= to <= |s|
    && (forall k :: from <= k < low || mid <= k < high ==> rank(s[k]) <= v)
    && (forall k :: low <= k < mid || high <= k < to ==> rank(s[k]) >= v)
    && NoTies(s[low..mid], s[mid..high], rank)
  }

  method CutFirst<T(!new)>(a: array<T>, less: (T, T) -> bool, ghost rank: T -> int, ghost dom: set<T>, from: nat,
                           mid: nat, to: nat)
    returns (firstCut: nat, secondCut: nat, ghost v: int)
    requires Mergeable(a[..], less, rank, dom, from, mid, to) && from + 1 < mid
    ensures from < firstCut < mid <= secondCut <= to
    ensures SplitAt(a[..], rank, from, firstCut, mid, secondCut, to, v)
  {
    ghost var s := a[..];
    var len11 := (mid - from) / 2;
    firstCut := from + len11;
    assert s[firstCut] in dom;
    v := rank(a[firstCut]);
    secondCut := Lower(a, less, rank, dom, mid, to, firstCut);
    assert forall k :: from <= k < firstCut ==> rank(s[k]) <= rank(s[firstCut]);
    assert forall k :: firstCut < k < mid ==> rank(s[firstCut]) <= rank(s[k]);
  }

  method CutSecond<T(!new)>(a: array<T>, less: (T, T) -> bool, ghost rank: T -> int, ghost dom: set<T>, from: nat,
                            mid: nat, to: nat)
    returns (firstCut: nat, secondCut: nat, ghost v: int)
    requires Mergeable(a[..], less, rank, dom, from, mid, to) && from < mid < to
    ensures from <= firstCut <= mid <= secondCut < to && secondCut == mid + (to - mid) / 2
    ensures SplitAt(a[..], rank, from, firstCut, mid, secondCut, to, v)
  {
    ghost var s := a[..];
    var len22 := (to - mid) / 2;
    secondCut := mid + len22;
    assert s[secondCut] in dom;
    v := rank(a[secondCut]);
    firstCut := Upper(a, less, rank, dom, from, mid, secondCut);
    assert forall k :: mid <= k < secondCut ==> rank(s[k]) <= rank(s[secondCut]);
    assert forall k :: secondCut < k < to ==> rank(s[secondCut]) <= rank(s[k]);
  }

  /** After the rotation, everything below `newMid` is at most `v` and everything from it on
      at least `v`, and each half is two sorted neighbours again. */
  lemma CutSplits<T(!new)>(s: seq<T>, t: seq<T>, less: (T, T) -> bool, rank: T -> int, dom: set<T>,
                           from: int, low: int, mid: int, high: int, to: int, v: int)
    requires Mergeable(s, less, rank, dom, from, mid, to) && SplitAt(s, rank, from, low, mid, high, to, v)
    requires Rotated(s, t, low, mid, high)
    ensures Mergeable(t, less, rank, UpTo(dom, rank, v), from, low, low + high - mid)
    ensures Mergeable(t, less, rank, FromOn(dom, rank, v), low + high - mid, high, to)
  {
  }

  lemma MergeableKept<T(!new)>(t: seq<T>, u: seq<T>, less: (T, T) -> bool, rank: T -> int, dom: set<T>, from: int,
                               newMid: int, mid: int, to: int)
    requires Mergeable(t, less, rank, dom, newMid, mid, to) && PermutedWithin(t, u, from, newMid)
    ensures Mergeable(u, less, rank, dom, newMid, mid, to)
  {
  }

  lemma HalvesMerged<T>(s: seq<T>, t: seq<T>, u: seq<T>, w: seq<T>, rank: T -> int, dom: set<T>, from: int,
                        newMid: int, to: int, v: int)
    requires from <= newMid <= to && StableWithin(s, t, rank, from, to)
    requires Merged(t, u, rank, UpTo(dom, rank, v), from, newMid)
      && Merged(u, w, rank, FromOn(dom, rank, v), newMid, to)
    ensures Merged(s, w, rank, dom, from, to)
  {
    StableTrans(s, t, u, rank, from, to, from, newMid);
    StableTrans(s, u, w, rank, from, to, newMid, to);
    assert Sorted(w, rank, from, newMid) && InDom(w, from, newMid, UpTo(dom, rank, v));
    JoinSorted(w, rank, from, newMid, to, dom, v);
  }

  /** Cuts the longer side in half and the other side where that half belongs, and exchanges
      the middle pieces. */
  method CutAndRotate<T(!new)>(a: array<T>, less: (T, T) -> bool, ghost rank: T -> int, ghost dom: set<T>, from: nat,
                               mid: nat, to: nat)
    returns (firstCut: nat, newMid: nat, secondCut: nat, ghost v: int)
    requires Mergeable(a[..], less, rank, dom, from, mid, to) && from < mid < to
    modifies a
    ensures from <= firstCut <= newMid <= secondCut <= to
    ensures to - from > 2 ==> from < newMid < to
    ensures StableWithin(old(a[..]), a[..], rank, from, to)
    ensures Mergeable(a[..], less, rank, UpTo(dom, rank, v), from, firstCut, newMid)
    ensures Mergeable(a[..], less, rank, FromOn(dom, rank, v), newMid, secondCut, to)
  {
    hide Mergeable, SplitAt, StableWithin, Rotated;
    ghost var s := a[..];
    if mid - from > to - mid {
      firstCut, secondCut, v := CutFirst(a, less, rank, dom, from, mid, to);
    } else {
      firstCut, secondCut, v := CutSecond(a, less, rank, dom, from, mid, to);
    }
    Rotate(a, firstCut, mid, secondCut);
    newMid := firstCut + (secondCut - mid);
    RotatedStableWithin(s, a[..], from, firstCut, mid, secondCut, to, rank, v);
    CutSplits(s, a[..], less, rank, dom, from, firstCut, mid, secondCut, to, v);
  }

  /** Merges what `CutAndRotate` leaves. A range of two stays a range of two and is merged by
      a swap: `size`, the length before trimming, still drops. */
  method MergeCut<T(!new)>(a: array<T>, less: (T, T) -> bool, ghost rank: T -> int, ghost dom: set<T>, from: nat,
                           mid: nat, to: nat, ghost size: nat)
    requires Mergeable(a[..], less, rank, dom, from, mid, to) && from < mid < to && to - from <= size && size > 2
    modifies a
    ensures Merged(old(a[..]), a[..], rank, dom, from, to)
    decreases size, 0
  {
    hide Mergeable, Merged, StableWithin, PermutedWithin;
    ghost var s := a[..];
    var firstCut, newMid, secondCut, v := CutAndRotate(a, less, rank, dom, from, mid, to);
    ghost var t := a[..];
    MergeInPlace(a, less, rank, UpTo(dom, rank, v), from, firstCut, newMid);
    ghost var u := a[..];
    MergedWithin(t, u, rank, UpTo(dom, rank, v), from, newMid);
    MergeableKept(t, u, less, rank, FromOn(dom, rank, v), from, newMid, secondCut, to);
    MergeInPlace(a, less, rank, FromOn(dom, rank, v), newMid, secondCut, to);
    HalvesMerged(s, t, u, a[..], rank, dom, from, newMid, to, v);
  }

  lemma MergedWithin<T>(s: seq<T>, t: seq<T>, rank: T -> int, dom: set<T>, from: int, to: int)
    requires Merged(s, t, rank, dom, from, to)
    ensures PermutedWithin(s, t, from, to)
  {
  }

  /** `merge_sort`: sorted by rank, and every run of equal rank in its original order. */
  method MergeSort<T(!new)>(a: array<T>, less: (T, T) -> bool, ghost rank: T -> int, ghost dom: set<T>, from: nat,
                            to: nat)
    requires from <= to <= a.Length && Orders(less, rank, dom) && InDom(a[..], from, to, dom)
    modifies a
    ensures Merged(old(a[..]), a[..], rank, dom, from, to)
    decreases (to - from)
  {
    hide Filter;
    ghost var s := a[..];
    if to - from < BINARY_SORT_THRESHOLD {
      BinarySort(a, less, rank, dom, from, to);
    } else {
      var mid := (from + to) / 2;
      MergeSort(a, less, rank, dom, from, mid);
      ghost var t := a[..];
      MergeSort(a, less, rank, dom, mid, to);
      ghost var u := a[..];
      MergeInPlace(a, less, rank, dom, from, mid, to);
      StableTrans(t, t, u, rank, from, to, mid, to);
      StableTrans(t, u, a[..], rank, from, to, from, to);
    }
  }

  /** Sorts numbers, as the standard library does. */
  method SortNumbers(s: seq<nat>) returns (r: seq<nat>)
    ensures multiset(r) == multiset(s) && forall i, j :: 0 <= i < j < |r| ==> r[i] <= r[j]
  {
    var a := new nat[|s|](i requires 0 <= i < |s| => s[i]);
    assert a[..] == s;
    MergeSort(a, (x: nat, y: nat) => x < y, (x: nat) => x, set x | x in s, 0, |s|);
    r := a[..];
  }

  lemma PermutedPart<T>(s: seq<T>, t: seq<T>, n: nat)
    requires PermutedWithin(s, t, 0, n)
    ensures multiset(s[..n]) == multiset(t[..n]) && s[n..] == t[n..]
  {
    assert s == s[..n] + s[n..] && t == t[..n] + t[n..];
    assert s[n..] == t[n..];
    forall x ensures multiset(s[..n])[x] == multiset(t[..n])[x] {
      assert multiset(s)[x] == multiset(s[..n])[x] + multiset(s[n..])[x];
      assert multiset(t)[x] == multiset(t[..n])[x] + multiset(t[n..])[x];
    }
  }
}
