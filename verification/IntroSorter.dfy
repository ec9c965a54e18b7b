/** The quick sort of sorter.rs, with its heap sort and insertion sort fallbacks. */
module IntroSorter {
  import opened Sorter

  lemma PermTrans<T>(s: seq<T>, t: seq<T>, u: seq<T>, from: int, to: int, f: int, e: int)
    requires PermutedWithin(s, t, from, to) && PermutedWithin(t, u, f, e) && from <= f && e <= to
    ensures PermutedWithin(s, u, from, to)
  {
  }

  // ----- heap_sort -----

  function HeapParent(from: nat, i: nat): nat
    requires i > from
  {
    (i - 1 - from) / 2 + from
  }

  function HeapChild(from: nat, i: nat): nat
    requires i >= from
  {
    (i - from) * 2 + 1 + from
  }

  ghost predicate Covered<T>(s: seq<T>, rank: T -> int, from: nat, j: nat)
    requires from < j < |s|
  {
    rank(s[HeapParent(from, j)]) >= rank(s[j])
  }

  /** The nodes from `lo` on are heaps, except that `hole` may be below its children, which
      are not above the parent of `hole`. */
  ghost predicate HeapBut<T>(s: seq<T>, rank: T -> int, from: nat, to: nat, lo: nat, hole: nat) {
    && from <= lo <= hole < to <= |s|
    && (forall j :: from < j < to && HeapParent(from, j) >= lo && HeapParent(from, j) != hole ==>
          Covered(s, rank, from, j))
    && (forall j :: from < j < to && HeapParent(from, j) == hole && hole > lo && HeapParent(from, hole) >= lo ==>
          rank(s[HeapParent(from, hole)]) >= rank(s[j]))
  }

  ghost predicate HeapFrom<T>(s: seq<T>, rank: T -> int, from: nat, to: nat, lo: nat) {
    && from <= lo && to <= |s|
    && forall j :: from < j < to && HeapParent(from, j) >= lo ==> Covered(s, rank, from, j)
  }

  lemma {:induction false} RootIsGreatest<T>(s: seq<T>, rank: T -> int, from: nat, to: nat, i: nat)
    requires HeapFrom(s, rank, from, to, from) && from <= i < to
    ensures rank(s[from]) >= rank(s[i])
    decreases i
  {
    if i > from {
      assert Covered(s, rank, from, i);
      RootIsGreatest(s, rank, from, to, HeapParent(from, i));
    }
  }

  lemma SiftStep<T>(s: seq<T>, t: seq<T>, rank: T -> int, from: nat, to: nat, lo: nat, hole: nat, child: nat)
    requires HeapBut(s, rank, from, to, lo, hole) && from < child < to && HeapParent(from, child) == hole
    requires rank(s[hole]) < rank(s[child]) && Tops(s, rank, from, to, hole, child)
    requires t == s[hole := s[child]][child := s[hole]]
    ensures HeapBut(t, rank, from, to, lo, child)
  {
    forall j | from < j < to && HeapParent(from, j) >= lo && HeapParent(from, j) != child
      ensures Covered(t, rank, from, j)
    {
      if HeapParent(from, j) != hole {
        assert Covered(s, rank, from, j);
      }
    }
    forall j | from < j < to && HeapParent(from, j) == child ensures rank(t[hole]) >= rank(t[j]) {
      assert Covered(s, rank, from, j);
    }
  }

  lemma SiftDone<T>(s: seq<T>, rank: T -> int, from: nat, to: nat, lo: nat, hole: nat)
    requires HeapBut(s, rank, from, to, lo, hole)
    requires Tops(s, rank, from, to, hole, hole)
    ensures HeapFrom(s, rank, from, to, lo)
  {
  }

  /** The children of node `i`. */
  lemma ChildrenOf(from: nat, i: nat, j: nat)
    requires from <= i && from < j
    ensures HeapParent(from, j) == i <==> j == HeapChild(from, i) || j == HeapChild(from, i) + 1
  {
  }

  /** No child of `i` is above the element at `c`. */
  ghost predicate Tops<T>(s: seq<T>, rank: T -> int, from: nat, to: nat, i: nat, c: nat)
    requires from <= i && c < |s| && to <= |s|
  {
    forall j :: from < j < to && HeapParent(from, j) == i ==> rank(s[j]) <= rank(s[c])
  }

  /** Where `i` has to be swapped to: a greatest child if one is above it, else `i` itself. */
  method Winner<T(!new)>(a: array<T>, less: (T, T) -> bool, ghost rank: T -> int, ghost dom: set<T>, i: nat, from: nat,
                         to: nat)
    returns (child: nat)
    requires from <= i && HeapChild(from, i) < to <= a.Length && Orders(less, rank, dom) && InDom(a[..], from, to, dom)
    ensures i <= child < to && Tops(a[..], rank, from, to, i, child)
    ensures child != i ==> HeapParent(from, child) == i && rank(a[i]) < rank(a[child])
  {
    var leftChild := HeapChild(from, i);
    var rightChild := leftChild + 1;
    ghost var s := a[..];
    assert s[i] in dom && s[leftChild] in dom && (rightChild < to ==> s[rightChild] in dom);
    forall j | from < j < to
      ensures HeapParent(from, j) == i <==> j == leftChild || j == rightChild
    {
      ChildrenOf(from, i, j);
    }
    if less(a[i], a[leftChild]) {
      if rightChild < to && less(a[leftChild], a[rightChild]) {
        child := rightChild;
      } else {
        child := leftChild;
      }
    } else if rightChild < to && less(a[i], a[rightChild]) {
      child := rightChild;
    } else {
      child := i;
    }
  }

  lemma Childless<T>(s: seq<T>, rank: T -> int, from: nat, to: nat, i: nat)
    requires from <= i < to <= |s| && HeapChild(from, i) >= to
    ensures Tops(s, rank, from, to, i, i)
  {
    forall j | from < j < to ensures HeapParent(from, j) != i { ChildrenOf(from, i, j); }
  }

  method SiftDown<T(!new)>(a: array<T>, less: (T, T) -> bool, ghost rank: T -> int, ghost dom: set<T>, start: nat,
                           from: nat, to: nat)
    requires HeapBut(a[..], rank, from, to, start, start) && Orders(less, rank, dom) && InDom(a[..], from, to, dom)
    modifies a
    ensures HeapFrom(a[..], rank, from, to, start) && InDom(a[..], from, to, dom)
    ensures PermutedWithin(old(a[..]), a[..], from, to)
  {
    hide HeapFrom, Tops, Orders;
    var i := start;
    while HeapChild(from, i) < to
      invariant start <= i < to && HeapBut(a[..], rank, from, to, start, i) && InDom(a[..], from, to, dom)
      invariant PermutedWithin(old(a[..]), a[..], from, to)
      decreases a.Length - i
    {
      var child := Winner(a, less, rank, dom, i, from, to);
      if child == i {
        SiftDone(a[..], rank, from, to, start, i);
        return;
      }
      ghost var s := a[..];
      Swap(a, i, child);
      SiftStep(s, a[..], rank, from, to, start, i, child);
      i := child;
    }
    Childless(a[..], rank, from, to, i);
    SiftDone(a[..], rank, from, to, start, i);
  }

  method Heapify<T(!new)>(a: array<T>, less: (T, T) -> bool, ghost rank: T -> int, ghost dom: set<T>, from: nat,
                          to: nat)
    requires from + 1 < to <= a.Length && Orders(less, rank, dom) && InDom(a[..], from, to, dom)
    modifies a
    ensures HeapFrom(a[..], rank, from, to, from) && InDom(a[..], from, to, dom)
    ensures PermutedWithin(old(a[..]), a[..], from, to)
  {
    var i: int := HeapParent(from, to - 1);
    while i >= from
      invariant from - 1 <= i < to
      invariant HeapFrom(a[..], rank, from, to, i + 1) && InDom(a[..], from, to, dom)
      invariant PermutedWithin(old(a[..]), a[..], from, to)
    {
      ghost var s := a[..];
      SiftDown(a, less, rank, dom, i, from, to);
      PermTrans(old(a[..]), s, a[..], from, to, from, to);
      i := i - 1;
    }
  }

  /** Every element of `dom` is at most every element of `s[lo..hi)`. */
  ghost predicate CapsAll<T>(s: seq<T>, rank: T -> int, lo: int, hi: int, dom: set<T>)
    requires 0 <= lo <= hi <= |s|
  {
    forall k, x :: lo <= k < hi && x in dom ==> rank(x) <= rank(s[k])
  }

  /** The root of the heap goes to the end of it, in front of the sorted rest. */
  lemma RootToEnd<T(!new)>(s: seq<T>, t: seq<T>, less: (T, T) -> bool, rank: T -> int, dom: set<T>, from: nat,
                           end: nat, to: nat, d: set<T>)
    requires from < end < to <= |s| && HeapFrom(s, rank, from, end + 1, from) && InDom(s, from, end + 1, d) && d <= dom
    requires InDom(s, from, to, dom) && Orders(less, rank, d)
    requires Sorted(s, rank, end + 1, to) && CapsAll(s, rank, end + 1, to, d)
    requires t == s[from := s[end]][end := s[from]]
    ensures var e := UpTo(d, rank, rank(s[from]));
            && HeapBut(t, rank, from, end, from, from) && InDom(t, from, end, e) && Orders(less, rank, e)
            && Sorted(t, rank, end, to) && CapsAll(t, rank, end, to, e) && InDom(t, from, to, dom)
  {
    forall i | from <= i < end ensures t[i] in UpTo(d, rank, rank(s[from])) {
      RootIsGreatest(s, rank, from, end + 1, if i == from then end else i);
    }
    forall j | from < j < end && HeapParent(from, j) != from ensures Covered(t, rank, from, j) {
      assert Covered(s, rank, from, j);
    }
  }

  lemma SuffixKept<T>(t: seq<T>, u: seq<T>, rank: T -> int, dom: set<T>, e: set<T>, from: nat, end: nat, to: nat)
    requires from <= end <= to <= |t| && PermutedWithin(t, u, from, end) && InDom(u, from, end, e) && e <= dom
    requires Sorted(t, rank, end, to) && CapsAll(t, rank, end, to, e) && InDom(t, from, to, dom)
    ensures Sorted(u, rank, end, to) && CapsAll(u, rank, end, to, e) && InDom(u, from, to, dom)
  {
  }

  method HeapSort<T(!new)>(a: array<T>, less: (T, T) -> bool, ghost rank: T -> int, ghost dom: set<T>, from: nat,
                           to: nat)
    requires from <= to <= a.Length && Orders(less, rank, dom) && InDom(a[..], from, to, dom)
    modifies a
    ensures Sorted(a[..], rank, from, to) && InDom(a[..], from, to, dom)
    ensures PermutedWithin(old(a[..]), a[..], from, to)
  {
    if to - from <= 1 {
      return;
    }
    Heapify(a, less, rank, dom, from, to);
    ghost var d := dom;
    var end := to - 1;
    while end > from
      invariant from <= end < to && d <= dom && Orders(less, rank, d)
      invariant HeapFrom(a[..], rank, from, end + 1, from) && InDom(a[..], from, end + 1, d)
      invariant Sorted(a[..], rank, end + 1, to) && CapsAll(a[..], rank, end + 1, to, d) && InDom(a[..], from, to, dom)
      invariant PermutedWithin(old(a[..]), a[..], from, to)
    {
      hide Orders, HeapFrom, HeapBut, Sorted, CapsAll, InDom;
      ghost var s := a[..];
      Swap(a, from, end);
      ghost var t := a[..];
      RootToEnd(s, t, less, rank, dom, from, end, to, d);
      d := UpTo(d, rank, rank(s[from]));
      SiftDown(a, less, rank, d, from, from, end);
      SuffixKept(t, a[..], rank, dom, d, from, end, to);
      PermTrans(old(a[..]), t, a[..], from, to, from, end);
      end := end - 1;
    }
    LastSorted(a[..], rank, from, to, d);
  }

  lemma LastSorted<T>(s: seq<T>, rank: T -> int, from: nat, to: nat, d: set<T>)
    requires from < to <= |s| && InDom(s, from, from + 1, d) && Sorted(s, rank, from + 1, to)
      && CapsAll(s, rank, from + 1, to, d)
    ensures Sorted(s, rank, from, to)
  {
  }

  // ----- quick_sort -----

  lemma SwapWithin<T>(s: seq<T>, t: seq<T>, u: seq<T>, from: int, to: int, i: int, j: int, dom: set<T>)
    requires PermutedWithin(s, t, from, to) && from <= i < to && from <= j < to && InDom(t, from, to, dom)
    requires u == t[i := t[j]][j := t[i]] && multiset(u) == multiset(t)
    ensures PermutedWithin(s, u, from, to) && InDom(u, from, to, dom)
  {
  }

  /** Swaps two elements that are out of order. */
  method OrderTwo<T(!new)>(a: array<T>, less: (T, T) -> bool, ghost rank: T -> int, ghost dom: set<T>, i: nat, j: nat,
                           from: nat, to: nat)
    returns (swapped: bool)
    requires from <= i < j < to <= a.Length && Orders(less, rank, dom) && InDom(a[..], from, to, dom)
    modifies a
    ensures InDom(a[..], from, to, dom) && PermutedWithin(old(a[..]), a[..], from, to)
    ensures swapped <==> rank(old(a[j])) < rank(old(a[i]))
    ensures if swapped then a[i] == old(a[j]) && a[j] == old(a[i]) else a[i] == old(a[i]) && a[j] == old(a[j])
    ensures forall k :: 0 <= k < a.Length && k != i && k != j ==> a[k] == old(a[k])
  {
    assert a[..][i] in dom && a[..][j] in dom;
    ghost var s := a[..];
    Unmoved(s, from, to);
    swapped := less(a[j], a[i]);
    if swapped {
      Swap(a, i, j);
      SwapWithin(s, s, a[..], from, to, i, j, dom);
    }
  }

  /** Puts the first, middle and last element in order. */
  method OrderThree<T(!new)>(a: array<T>, less: (T, T) -> bool, ghost rank: T -> int, ghost dom: set<T>, from: nat,
                             mid: nat, to: nat)
    requires from < mid < to - 1 && to <= a.Length && Orders(less, rank, dom) && InDom(a[..], from, to, dom)
    modifies a
    ensures rank(a[from]) <= rank(a[mid]) <= rank(a[to - 1])
    ensures InDom(a[..], from, to, dom) && PermutedWithin(old(a[..]), a[..], from, to)
  {
    hide Orders, InDom, PermutedWithin;
    ghost var s := a[..];
    var swapped := OrderTwo(a, less, rank, dom, from, mid, from, to);
    ghost var t := a[..];
    swapped := OrderTwo(a, less, rank, dom, mid, to - 1, from, to);
    ghost var u := a[..];
    PermTrans(s, t, u, from, to, from, to);
    if swapped {
      swapped := OrderTwo(a, less, rank, dom, from, mid, from, to);
      PermTrans(s, u, a[..], from, to, from, to);
    }
  }

  lemma Unmoved<T>(s: seq<T>, from: int, to: int)
    requires 0 <= from <= to <= |s|
    ensures PermutedWithin(s, s, from, to)
  {
  }

  /** Everything before `left` is at most `v`, everything after `right` at least `v`. */
  ghost predicate Parted<T>(s: seq<T>, rank: T -> int, from: int, left: int, right: int, to: int, v: int) {
    && 0 <= from <= left <= right + 1 <= to <= |s|
    && (forall k :: from <= k < left ==> rank(s[k]) <= v)
    && (forall k :: right < k < to ==> rank(s[k]) >= v)
  }

  /** Splits the range around the pivot. The scan from the right has no bound of its own: it
      is stopped by an element that is not above the pivot. */
  method Partition<T(!new)>(a: array<T>, less: (T, T) -> bool, ghost rank: T -> int, ghost dom: set<T>, from: nat,
                            mid: nat, to: nat)
    returns (left: nat)
    requires from < mid < to - 1 && to <= a.Length && Orders(less, rank, dom) && InDom(a[..], from, to, dom)
    requires rank(a[from]) <= rank(a[mid]) <= rank(a[to - 1])
    modifies a
    ensures from < left < to - 1 && Parted(a[..], rank, from, left + 1, left, to, rank(old(a[mid])))
    ensures InDom(a[..], from, to, dom) && PermutedWithin(old(a[..]), a[..], from, to)
  {
    var pivot := a[mid];
    ghost var v := rank(pivot);
    assert a[..][mid] in dom;
    Unmoved(a[..], from, to);
    assert Parted(a[..], rank, from, from + 1, to - 2, to, v);
    hide InDom, PermutedWithin, Parted, Orders;
    left := from + 1;
    var right := to - 2;
    ghost var stop := mid;
    while true
      invariant from < left <= stop <= right < to - 1 && rank(a[stop]) <= v
      invariant Parted(a[..], rank, from, left, right, to, v)
      invariant InDom(a[..], from, to, dom) && PermutedWithin(old(a[..]), a[..], from, to)
      decreases right - left
    {
      right := ScanRight(a, less, rank, dom, pivot, from, left, right, to, stop);
      left := ScanLeft(a, less, rank, dom, pivot, from, left, right, to);
      if left < right {
        ghost var s := a[..];
        Swap(a, left, right);
        SwapWithin(old(a[..]), s, a[..], from, to, left, right, dom);
        SwapParts(s, a[..], rank, from, left, right, to, v);
        stop := left;
        right := right - 1;
      } else {
        break;
      }
    }
  }

  lemma SwapParts<T>(s: seq<T>, t: seq<T>, rank: T -> int, from: int, left: int, right: int, to: int, v: int)
    requires Parted(s, rank, from, left, right, to, v) && left < right
    requires rank(s[left]) > v >= rank(s[right]) && t == s[left := s[right]][right := s[left]]
    ensures Parted(t, rank, from, left, right - 1, to, v)
  {
  }

  method ScanRight<T(!new)>(a: array<T>, less: (T, T) -> bool, ghost rank: T -> int, ghost dom: set<T>, pivot: T,
                            from: nat, ghost left: nat, start: nat, to: nat, ghost stop: nat)
    returns (right: nat)
    requires from < left <= stop <= start < to - 1 && to <= a.Length && rank(a[stop]) <= rank(pivot)
    requires Orders(less, rank, dom) && InDom(a[..], from, to, dom) && pivot in dom
    requires Parted(a[..], rank, from, left, start, to, rank(pivot))
    ensures stop <= right <= start && rank(a[right]) <= rank(pivot)
    ensures Parted(a[..], rank, from, left, right, to, rank(pivot))
  {
    right := start;
    assert a[..][right] in dom;
    while less(pivot, a[right])
      invariant stop <= right <= start && Parted(a[..], rank, from, left, right, to, rank(pivot))
      decreases right
    {
      assert a[..][right] in dom && a[..][stop] in dom;
      right := right - 1;
    }
    assert a[..][right] in dom;
  }

  method ScanLeft<T(!new)>(a: array<T>, less: (T, T) -> bool, ghost rank: T -> int, ghost dom: set<T>, pivot: T,
                           from: nat, start: nat, right: nat, to: nat)
    returns (left: nat)
    requires from < start <= right < to - 1 && to <= a.Length && rank(a[right]) <= rank(pivot)
    requires Orders(less, rank, dom) && InDom(a[..], from, to, dom) && pivot in dom
    requires Parted(a[..], rank, from, start, right, to, rank(pivot))
    ensures start <= left <= right && (left < right ==> rank(a[left]) > rank(pivot))
    ensures Parted(a[..], rank, from, left, right, to, rank(pivot))
    ensures left == right ==> Parted(a[..], rank, from, left + 1, left, to, rank(pivot))
  {
    left := start;
    while left < right && !less(pivot, a[left])
      invariant start <= left <= right && Parted(a[..], rank, from, left, right, to, rank(pivot))
    {
      assert a[..][left] in dom;
      left := left + 1;
    }
    assert a[..][left] in dom;
  }

  lemma PartedDoms<T(!new)>(s: seq<T>, less: (T, T) -> bool, rank: T -> int, dom: set<T>, from: int, cut: int, to: int,
                            v: int)
    requires 0 <= from <= cut <= to <= |s| && InDom(s, from, to, dom) && Orders(less, rank, dom)
    requires Parted(s, rank, from, cut, cut - 1, to, v)
    ensures InDom(s, from, cut, UpTo(dom, rank, v)) && InDom(s, cut, to, FromOn(dom, rank, v))
    ensures Orders(less, rank, UpTo(dom, rank, v)) && Orders(less, rank, FromOn(dom, rank, v))
  {
  }

  lemma RestKept<T>(t: seq<T>, u: seq<T>, rank: T -> int, dom: set<T>, from: int, f: int, e: int, to: int)
    requires 0 <= f <= e <= |t| && InDom(t, f, e, dom) && PermutedWithin(t, u, from, to) && (to <= f || e <= from)
    requires 0 <= f <= e <= |u|
    ensures InDom(u, f, e, dom) && (Sorted(t, rank, f, e) ==> Sorted(u, rank, f, e))
  {
  }

  /** Intro sort: quick sort that turns to insertion sort on short ranges and to heap sort
      when the depth is used up. */
  method QuickSort<T(!new)>(a: array<T>, less: (T, T) -> bool, ghost rank: T -> int, ghost dom: set<T>, from: nat,
                            to: nat, depth: int)
    requires from <= to <= a.Length && Orders(less, rank, dom) && InDom(a[..], from, to, dom)
    modifies a
    ensures Sorted(a[..], rank, from, to) && InDom(a[..], from, to, dom)
    ensures PermutedWithin(old(a[..]), a[..], from, to)
    decreases (to - from)
  {
    hide Orders, Sorted, InDom, Parted, Stable, PermutedWithin;
    var maxDepth := depth - 1;
    if to - from < BINARY_SORT_THRESHOLD {
      BinarySort(a, less, rank, dom, from, to);
      return;
    } else if maxDepth < 0 {
      HeapSort(a, less, rank, dom, from, to);
      return;
    }
    ghost var s := a[..];
    var mid := (from + to) / 2;
    OrderThree(a, less, rank, dom, from, mid, to);
    ghost var v := rank(a[mid]);
    ghost var s1 := a[..];
    var left := Partition(a, less, rank, dom, from, mid, to);
    ghost var s2 := a[..];
    PermTrans(s, s1, s2, from, to, from, to);
    PartedDoms(s2, less, rank, dom, from, left + 1, to, v);
    QuickSort(a, less, rank, UpTo(dom, rank, v), from, left + 1, maxDepth);
    ghost var s3 := a[..];
    RestKept(s2, s3, rank, FromOn(dom, rank, v), from, left + 1, to, left + 1);
    QuickSort(a, less, rank, FromOn(dom, rank, v), left + 1, to, maxDepth);
    QuickJoin(s, s2, s3, a[..], rank, dom, from, left + 1, to, v);
  }

  lemma QuickJoin<T>(s: seq<T>, t: seq<T>, u: seq<T>, w: seq<T>, rank: T -> int, dom: set<T>, from: int, cut: int,
                     to: int, v: int)
    requires PermutedWithin(s, t, from, to) && PermutedWithin(t, u, from, cut) && PermutedWithin(u, w, cut, to)
    requires from <= cut <= to && Sorted(u, rank, from, cut) && InDom(u, from, cut, UpTo(dom, rank, v))
    requires Sorted(w, rank, cut, to) && InDom(w, cut, to, FromOn(dom, rank, v))
    ensures Sorted(w, rank, from, to) && InDom(w, from, to, dom) && PermutedWithin(s, w, from, to)
  {
    PermTrans(s, t, u, from, to, from, cut);
    PermTrans(s, u, w, from, to, cut, to);
    RestKept(u, w, rank, UpTo(dom, rank, v), cut, from, cut, to);
    JoinSorted(w, rank, from, cut, to, dom, v);
  }
}
