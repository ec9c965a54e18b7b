/** Selection of the k-th element by partitioning in place (selector.rs). */
module Selector {
  import opened Sorter
  import opened IntroSorter

  /** Everything before `k` is not above it, and everything behind it is not below it. */
  ghost predicate Selected<T>(s: seq<T>, rank: T -> int, from: int, to: int, k: int) {
    && 0 <= from <= k < to <= |s|
    && (forall i :: from <= i < k ==> rank(s[i]) <= rank(s[k])) && (forall i :: k < i < to ==> rank(s[k]) <= rank(s[i]))
  }

  /** Up to `left` nothing is above `v`, and from behind `right` up to the pivot nothing is below it. */
  ghost predicate Parting<T>(s: seq<T>, rank: T -> int, from: int, left: int, right: int, to: int, v: int) {
    && 0 <= from < left < to <= |s| && from <= right < to - 1 && rank(s[to - 1]) == v
    && (forall i :: from <= i < left ==> rank(s[i]) <= v) && (forall i :: right < i < to ==> rank(s[i]) >= v)
  }

  /** The element at `left` is the pivot: nothing before it is above it, nothing behind it below. */
  ghost predicate Parted<T>(s: seq<T>, rank: T -> int, from: int, left: int, to: int, v: int) {
    && 0 <= from <= left < to <= |s| && rank(s[left]) == v
    && (forall i :: from <= i < left ==> rank(s[i]) <= v) && (forall i :: left < i < to ==> rank(s[i]) >= v)
  }

  /** The median of three goes to the end of the range, and something not above it to the front. */
  method PickPivot<T(!new)>(a: array<T>, less: (T, T) -> bool, ghost rank: T -> int, ghost dom: set<T>, from: nat,
                            to: nat)
    requires from + 1 < to <= a.Length && Orders(less, rank, dom) && InDom(a[..], from, to, dom)
    modifies a
    ensures rank(a[from]) <= rank(a[to - 1])
    ensures InDom(a[..], from, to, dom) && PermutedWithin(old(a[..]), a[..], from, to)
  {
    hide Orders, InDom, PermutedWithin;
    var mid := (from + to) / 2;
    ghost var s := a[..];
    var swapped := OrderTwo(a, less, rank, dom, from, to - 1, from, to);
    if mid < to - 1 {
      ghost var t := a[..];
      swapped := MoveUp(a, less, rank, dom, mid, from, to);
      PermTrans(s, t, a[..], from, to, from, to);
      if swapped {
        ghost var u := a[..];
        swapped := OrderTwo(a, less, rank, dom, from, to - 1, from, to);
        PermTrans(s, u, a[..], from, to, from, to);
      }
    }
  }

  /** Exchanges the last element with the one in the middle if it is above it. */
  method MoveUp<T(!new)>(a: array<T>, less: (T, T) -> bool, ghost rank: T -> int, ghost dom: set<T>, mid: nat,
                         from: nat, to: nat)
    returns (swapped: bool)
    requires from <= mid < to - 1 && to <= a.Length && Orders(less, rank, dom) && InDom(a[..], from, to, dom)
    modifies a
    ensures InDom(a[..], from, to, dom) && PermutedWithin(old(a[..]), a[..], from, to)
    ensures !swapped ==> a[..] == old(a[..])
  {
    assert a[..][mid] in dom && a[..][to - 1] in dom;
    ghost var s := a[..];
    Unmoved(s, from, to);
    swapped := less(a[mid], a[to - 1]);
    if swapped {
      Swap(a, mid, to - 1);
      SwapWithin(s, s, a[..], from, to, mid, to - 1, dom);
    }
  }

  /** The scan from the left has no bound of its own: it stops at the pivot at the latest. */
  method ScanUp<T(!new)>(a: array<T>, less: (T, T) -> bool, ghost rank: T -> int, ghost dom: set<T>, pivot: T,
                         from: nat, start: nat, right: nat, to: nat)
      returns (left: nat)
    requires to <= a.Length && Parting(a[..], rank, from, start, right, to, rank(pivot))
    requires Orders(less, rank, dom) && InDom(a[..], from, to, dom) && pivot in dom
    ensures start <= left && Parting(a[..], rank, from, left, right, to, rank(pivot)) && rank(a[left]) >= rank(pivot)
  {
    left := start;
    assert a[..][left] in dom;
    while less(a[left], pivot)
      invariant start <= left < to && Parting(a[..], rank, from, left, right, to, rank(pivot))
      decreases a.Length - left
    {
      assert a[..][left] in dom;
      left := left + 1;
    }
    assert a[..][left] in dom;
  }

  method ScanDown<T(!new)>(a: array<T>, less: (T, T) -> bool, ghost rank: T -> int, ghost dom: set<T>, pivot: T,
                           from: nat, left: nat, start: nat, to: nat)
      returns (right: nat)
    requires to <= a.Length && Parting(a[..], rank, from, left, start, to, rank(pivot))
    requires Orders(less, rank, dom) && InDom(a[..], from, to, dom) && pivot in dom
    ensures right <= start && Parting(a[..], rank, from, left, right, to, rank(pivot))
    ensures left < right ==> rank(a[right]) < rank(pivot)
  {
    right := start;
    while left < right && !less(a[right], pivot)
      invariant right <= start && Parting(a[..], rank, from, left, right, to, rank(pivot))
    {
      assert a[..][right] in dom;
      right := right - 1;
    }
    if left < right {
      assert a[..][right] in dom;
    }
  }

  lemma SwapParting<T>(s: seq<T>, t: seq<T>, rank: T -> int, from: int, left: int, right: int, to: int, v: int)
    requires Parting(s, rank, from, left, right, to, v) && left < right
    requires rank(s[left]) >= v > rank(s[right]) && t == s[left := s[right]][right := s[left]]
    ensures Parting(t, rank, from, left, right - 1, to, v)
  {
  }

  lemma PivotPlaced<T>(s: seq<T>, t: seq<T>, rank: T -> int, from: int, left: int, right: int, to: int, v: int)
    requires Parting(s, rank, from, left, right, to, v) && left >= right && rank(s[left]) >= v
    requires t == s[left := s[to - 1]][to - 1 := s[left]]
    ensures Parted(t, rank, from, left, to, v)
  {
  }

  method Partition<T(!new)>(a: array<T>, less: (T, T) -> bool, ghost rank: T -> int, ghost dom: set<T>, from: nat,
                            to: nat)
    returns (left: nat, ghost v: int)
    requires from + 1 < to <= a.Length && Orders(less, rank, dom) && InDom(a[..], from, to, dom)
      && rank(a[from]) <= rank(a[to - 1])
    modifies a
    ensures Parted(a[..], rank, from, left, to, v) && v == rank(old(a[to - 1]))
    ensures InDom(a[..], from, to, dom) && PermutedWithin(old(a[..]), a[..], from, to)
  {
    hide Orders, InDom, PermutedWithin, Parting, Parted;
    var pivot := a[to - 1];
    v := rank(pivot);
    ghost var s0 := a[..];
    Unmoved(s0, from, to);
    PartingStart(s0, rank, dom, from, to);
    left := from + 1;
    var right := to - 2;
    while true
      invariant from < left < to && from <= right < to - 1 && Parting(a[..], rank, from, left, right, to, v)
      invariant InDom(a[..], from, to, dom) && PermutedWithin(s0, a[..], from, to)
      decreases right
    {
      left := ScanUp(a, less, rank, dom, pivot, from, left, right, to);
      right := ScanDown(a, less, rank, dom, pivot, from, left, right, to);
      PartingBounds(a[..], rank, from, left, right, to, v);
      if left < right {
        ghost var s := a[..];
        Swap(a, left, right);
        SwapWithin(s0, s, a[..], from, to, left, right, dom);
        SwapParting(s, a[..], rank, from, left, right, to, v);
        right := right - 1;
      } else {
        break;
      }
    }
    ghost var s := a[..];
    Swap(a, left, to - 1);
    SwapWithin(s0, s, a[..], from, to, left, to - 1, dom);
    PivotPlaced(s, a[..], rank, from, left, right, to, v);
  }

  lemma PartingStart<T>(s: seq<T>, rank: T -> int, dom: set<T>, from: int, to: int)
    requires 0 <= from && from + 1 < to <= |s| && InDom(s, from, to, dom) && rank(s[from]) <= rank(s[to - 1])
    ensures Parting(s, rank, from, from + 1, to - 2, to, rank(s[to - 1])) && s[to - 1] in dom
  {
  }

  lemma PartingBounds<T>(s: seq<T>, rank: T -> int, from: int, left: int, right: int, to: int, v: int)
    requires Parting(s, rank, from, left, right, to, v)
    ensures from < left < to && from <= right < to - 1
  {
  }

  lemma SelectLeft<T>(t: seq<T>, u: seq<T>, rank: T -> int, dom: set<T>, from: int, left: int, to: int, k: int, v: int)
    requires Parted(t, rank, from, left, to, v) && PermutedWithin(t, u, from, left) && from <= k < left
    requires Selected(u, rank, from, left, k) && InDom(u, from, left, UpTo(dom, rank, v))
    ensures Selected(u, rank, from, to, k)
  {
    assert u[k] in UpTo(dom, rank, v);
  }

  lemma SelectRight<T>(t: seq<T>, u: seq<T>, rank: T -> int, dom: set<T>, from: int, left: int, to: int, k: int, v: int)
    requires Parted(t, rank, from, left, to, v) && PermutedWithin(t, u, left + 1, to) && left < k < to
    requires Selected(u, rank, left + 1, to, k) && InDom(u, left + 1, to, FromOn(dom, rank, v))
    ensures Selected(u, rank, from, to, k)
  {
    assert u[k] in FromOn(dom, rank, v);
  }

  lemma Sides<T(!new)>(t: seq<T>, less: (T, T) -> bool, rank: T -> int, dom: set<T>, from: int, left: int, to: int,
                       v: int)
    requires Parted(t, rank, from, left, to, v) && InDom(t, from, to, dom) && Orders(less, rank, dom)
    ensures InDom(t, from, left, UpTo(dom, rank, v)) && InDom(t, left + 1, to, FromOn(dom, rank, v))
    ensures Orders(less, rank, UpTo(dom, rank, v)) && Orders(less, rank, FromOn(dom, rank, v))
  {
  }

  /** `quick_select`: the element at `k` is the one that sorting the range would put there. */
  method QuickSelect<T(!new)>(a: array<T>, less: (T, T) -> bool, ghost rank: T -> int, ghost dom: set<T>, from: nat,
                              to: nat, k: nat)
    requires from <= k < to <= a.Length && Orders(less, rank, dom) && InDom(a[..], from, to, dom)
    modifies a
    ensures Selected(a[..], rank, from, to, k) && PermutedWithin(old(a[..]), a[..], from, to)
      && InDom(a[..], from, to, dom)
    decreases (to - from)
  {
    ghost var s := a[..];
    if to - from == 1 {
      Unmoved(s, from, to);
      return;
    }
    hide Orders, InDom, PermutedWithin, Parted, Selected;
    PickPivot(a, less, rank, dom, from, to);
    ghost var r := a[..];
    var left, v := Partition(a, less, rank, dom, from, to);
    ghost var t := a[..];
    PermTrans(s, r, t, from, to, from, to);
    Sides(t, less, rank, dom, from, left, to, v);
    PartedBounds(t, rank, from, left, to, v);
    if left == k {
      return;
    } else if left < k {
      QuickSelect(a, less, rank, FromOn(dom, rank, v), left + 1, to, k);
      SelectRight(t, a[..], rank, dom, from, left, to, k, v);
      PermTrans(s, t, a[..], from, to, left + 1, to);
      Whole(t, a[..], rank, dom, from, left + 1, to, to, FromOn(dom, rank, v));
    } else {
      QuickSelect(a, less, rank, UpTo(dom, rank, v), from, left, k);
      SelectLeft(t, a[..], rank, dom, from, left, to, k, v);
      PermTrans(s, t, a[..], from, to, from, left);
      Whole(t, a[..], rank, dom, from, from, left, to, UpTo(dom, rank, v));
    }
  }

  lemma PartedBounds<T>(s: seq<T>, rank: T -> int, from: int, left: int, to: int, v: int)
    requires Parted(s, rank, from, left, to, v)
    ensures from <= left < to <= |s| && Selected(s, rank, from, to, left)
  {
  }

  /** The part that was not worked on is as it was. */
  lemma Whole<T>(t: seq<T>, u: seq<T>, rank: T -> int, dom: set<T>, from: int, f: int, e: int, to: int, part: set<T>)
    requires 0 <= from <= f <= e <= to <= |t| && PermutedWithin(t, u, f, e) && InDom(t, from, to, dom)
    requires |u| == |t| && InDom(u, f, e, part) && part <= dom
    ensures InDom(u, from, to, dom)
  {
  }
}
