/** The priority queue of doc iterators (disi.rs), ordered by the doc each one stands on, and the
    linked list of those that stand on the least doc. */
module DisiQueue {
  import opened Sequences
  import opened BinaryHeap

  // ----- positions below a node -----

  /** Position `p` lies in the subtree of node `i`. */
  ghost predicate Under(i: nat, p: nat) {
    p == i || (p > i && Under(i, Parent(p)))
  }

  lemma {:induction false} UnderSplit(i: nat, p: nat)
    ensures Under(i, p) <==> p == i || Under(2 * i + 1, p) || Under(2 * i + 2, p)
  {
    if p > i {
      UnderSplit(i, Parent(p));
    }
  }

  lemma {:induction false} UnderAtLeast(i: nat, p: nat)
    requires Under(i, p)
    ensures p >= i
  {
  }

  /** The subtrees of two children do not meet. */
  lemma {:induction false} Separate(i: nat, p: nat)
    ensures !(Under(2 * i + 1, p) && Under(2 * i + 2, p))
  {
    if p > 2 * i + 2 {
      Separate(i, Parent(p));
    }
  }

  lemma {:induction false} UnderRoot(p: nat)
    ensures Under(0, p)
  {
    if p > 0 { UnderRoot(Parent(p)); }
  }

  /** The entry at `p` stands on the doc of the root. */
  ghost predicate OnTop(heap: seq<nat>, docs: seq<int>, p: nat) {
    p < |heap| && heap[p] < |docs| && heap[0] < |docs| && docs[heap[p]] == docs[heap[0]]
  }

  /** With an entry on the least doc, everything on the way up to it is on that doc too. */
  lemma {:induction false} OnTopUp(heap: seq<nat>, docs: seq<int>, i: nat, p: nat)
    requires Ordered(heap, docs) && OnTop(heap, docs, p) && Under(i, p)
    ensures OnTop(heap, docs, i)
  {
    if p > i {
      RootIsLeast(heap, docs, Parent(p));
      assert Above(heap, docs, p);
      OnTopUp(heap, docs, i, Parent(p));
    }
  }

  // ----- linked lists -----

  /** Following the links from `head` visits the entries at the given positions and ends. */
  ghost predicate Linked(next: seq<int>, heap: seq<nat>, head: nat, at: seq<nat>) {
    && |at| > 0 && (forall k :: 0 <= k < |at| ==> at[k] < |heap| && heap[at[k]] < |next|)
    && head == heap[at[0]] && next[heap[at[|at| - 1]]] == -1
    && (forall k: nat :: k < |at| - 1 ==> Follows(next, heap, at, k))
  }

  ghost predicate Follows(next: seq<int>, heap: seq<nat>, at: seq<nat>, k: nat) {
    && k + 1 < |at| && at[k] < |heap| && at[k + 1] < |heap| && heap[at[k]] < |next|
    && next[heap[at[k]]] == heap[at[k + 1]]
  }

  lemma Prepended(next: seq<int>, heap: seq<nat>, head: nat, at: seq<nat>, p: nat)
    requires Linked(next, heap, head, at) && Distinct(heap) && p < |heap| && heap[p] < |next| && p !in at
    ensures Linked(next[heap[p] := head], heap, heap[p], [p] + at)
  {
    var next', at' := next[heap[p] := head], [p] + at;
    forall k | 0 <= k < |at| ensures heap[at[k]] != heap[p] {
      assert at[k] != p;
    }
    forall k: nat | k < |at'| - 1 ensures Follows(next', heap, at', k) {
      if k > 0 {
        assert Follows(next, heap, at, k - 1);
      }
    }
    assert at'[|at'| - 1] == at[|at| - 1];
  }

  /** `at'` is `at` with the positions under `i` on the least doc put in front, each once. */
  ghost predicate AddsUnder(heap: seq<nat>, docs: seq<int>, i: nat, at: seq<nat>, at': seq<nat>) {
    && |at| <= |at'| && at'[|at'| - |at|..] == at && Distinct(at')
    && (forall p :: p in at' <==> p in at || (OnTop(heap, docs, p) && Under(i, p)))
  }

  ghost predicate NoneUnder(i: nat, at: seq<nat>) {
    forall p :: p in at ==> !Under(i, p)
  }

  lemma AddsNone(heap: seq<nat>, docs: seq<int>, i: nat, at: seq<nat>)
    requires Ordered(heap, docs) && Distinct(at) && !OnTop(heap, docs, i)
    ensures AddsUnder(heap, docs, i, at, at)
  {
    forall p: nat ensures !(OnTop(heap, docs, p) && Under(i, p)) {
      if OnTop(heap, docs, p) && Under(i, p) {
        OnTopUp(heap, docs, i, p);
      }
    }
  }

  /** Node `i`, then its left subtree, then its right one. */
  lemma AddsBoth(heap: seq<nat>, docs: seq<int>, i: nat, at: seq<nat>, at1: seq<nat>, at2: seq<nat>)
    requires OnTop(heap, docs, i) && NoneUnder(i, at)
    requires AddsUnder(heap, docs, 2 * i + 1, [i] + at, at1) && AddsUnder(heap, docs, 2 * i + 2, at1, at2)
    ensures AddsUnder(heap, docs, i, at, at2)
  {
    forall p ensures p in at2 <==> p in at || (OnTop(heap, docs, p) && Under(i, p)) {
      UnderSplit(i, p);
      assert p in [i] + at <==> p == i || p in at;
    }
    Suffixes([i] + at, at1, at2, at);
  }

  lemma Suffixes(s: seq<nat>, s1: seq<nat>, s2: seq<nat>, at: seq<nat>)
    requires |at| <= |s| <= |s1| <= |s2| && s[|s| - |at|..] == at && s1[|s1| - |s|..] == s && s2[|s2| - |s1|..] == s1
    ensures s2[|s2| - |at|..] == at
  {
    assert s1[|s1| - |at|..] == s1[|s1| - |s|..][|s| - |at|..];
    assert s2[|s2| - |at|..] == s2[|s2| - |s1|..][|s1| - |at|..];
  }

  /** A node whose subtree has no other position in use. */
  lemma AddsLeaf(heap: seq<nat>, docs: seq<int>, i: nat, at: seq<nat>)
    requires OnTop(heap, docs, i) && NoneUnder(i, at) && Distinct(at) && 2 * i + 1 >= |heap|
    ensures AddsUnder(heap, docs, i, at, [i] + at)
  {
    forall p: nat ensures OnTop(heap, docs, p) && Under(i, p) ==> p == i {
      UnderSplit(i, p);
      if Under(2 * i + 1, p) { UnderAtLeast(2 * i + 1, p); }
      if Under(2 * i + 2, p) { UnderAtLeast(2 * i + 2, p); }
    }
    assert ([i] + at)[1..] == at;
    PushedDistinct(i, at);
  }

  lemma PushedDistinct(i: nat, at: seq<nat>)
    requires NoneUnder(i, at) && Distinct(at)
    ensures Distinct([i] + at)
  {
    forall a, b | 0 <= a < b < |[i] + at| ensures ([i] + at)[a] != ([i] + at)[b] {
      assert at[b - 1] in at;
      assert Under(i, i);
    }
  }

  /** Nothing outside the subtree of `i` is inside that of a child of `i`. */
  lemma NoneUnderLeft(i: nat, at: seq<nat>)
    requires NoneUnder(i, at)
    ensures NoneUnder(2 * i + 1, [i] + at)
  {
    forall p | p in [i] + at ensures !Under(2 * i + 1, p) {
      UnderSplit(i, p);
      if p == i {
      } else {
        assert p in at;
      }
    }
  }

  lemma NoneUnderRight(heap: seq<nat>, docs: seq<int>, i: nat, at: seq<nat>, at1: seq<nat>)
    requires NoneUnder(i, at) && AddsUnder(heap, docs, 2 * i + 1, [i] + at, at1)
    ensures NoneUnder(2 * i + 2, at1)
  {
    forall p | p in at1 ensures !Under(2 * i + 2, p) {
      UnderSplit(i, p);
      Separate(i, p);
      if p in [i] + at {
        assert p == i || p in at;
      }
    }
  }

  /** `top_list_to`: prepends the entries of the subtree of `i` that stand on the least doc. */
  method TopListTo(heap: seq<nat>, docs: seq<int>, next: seq<int>, list: nat, i: nat, ghost at: seq<nat>)
    returns (next': seq<int>, list': nat, ghost at': seq<nat>)
    requires Ordered(heap, docs) && Distinct(heap) && |next| == |docs| && i < |heap|
    requires Linked(next, heap, list, at) && Distinct(at) && NoneUnder(i, at) && forall p :: p in at ==>
      OnTop(heap, docs, p)
    ensures |next'| == |next| && Linked(next', heap, list', at') && AddsUnder(heap, docs, i, at, at')
    decreases |heap| - i
  {
    hide Linked, AddsUnder, NoneUnder, Under, Above;
    HeadOnTop(next, heap, docs, list, at);
    next', list', at' := next, list, at;
    var w := heap[i];
    if docs[w] != docs[list] {
      AddsNone(heap, docs, i, at);
      return;
    }
    NotInList(i, at);
    Prepended(next, heap, list, at, i);
    PushedDistinct(i, at);
    next', list', at' := next[w := list], w, [i] + at;
    var left, right := 2 * i + 1, 2 * i + 2;
    if right < |heap| {
      NoneUnderLeft(i, at);
      next', list', at' := TopListTo(heap, docs, next', list', left, at');
      ghost var at1 := at';
      NoneUnderRight(heap, docs, i, at, at1);
      AddedOnTop(heap, docs, left, [i] + at, at1);
      next', list', at' := TopListTo(heap, docs, next', list', right, at1);
      AddsBoth(heap, docs, i, at, at1, at');
    } else if left < |heap| {
      NoneUnderLeft(i, at);
      if docs[heap[left]] == docs[list'] {
        NotInList(left, at');
        AddsLeaf(heap, docs, left, at');
        Prepended(next', heap, list', at', left);
        next' := next'[heap[left] := list'];
        list', at' := heap[left], [left] + at';
      } else {
        AddsNone(heap, docs, left, at');
      }
      NoneUnderRight(heap, docs, i, at, at');
      AddsOutside(heap, docs, right, at', left, [i] + at);
      AddsBoth(heap, docs, i, at, at', at');
    } else {
      AddsLeaf(heap, docs, i, at);
    }
  }

  lemma AddsOutside(heap: seq<nat>, docs: seq<int>, right: nat, at: seq<nat>, left: nat, before: seq<nat>)
    requires right >= |heap| && AddsUnder(heap, docs, left, before, at)
    ensures AddsUnder(heap, docs, right, at, at)
  {
    forall p: nat ensures !(OnTop(heap, docs, p) && Under(right, p)) {
      if Under(right, p) { UnderAtLeast(right, p); }
    }
  }

  lemma AddedOnTop(heap: seq<nat>, docs: seq<int>, i: nat, at: seq<nat>, at': seq<nat>)
    requires AddsUnder(heap, docs, i, at, at') && forall p :: p in at ==> OnTop(heap, docs, p)
    ensures Distinct(at') && forall p :: p in at' ==> OnTop(heap, docs, p)
  {
  }

  lemma NotInList(i: nat, at: seq<nat>)
    requires NoneUnder(i, at)
    ensures i !in at
  {
    assert Under(i, i);
  }

  lemma HeadOnTop(next: seq<int>, heap: seq<nat>, docs: seq<int>, list: nat, at: seq<nat>)
    requires Linked(next, heap, list, at) && forall p :: p in at ==> OnTop(heap, docs, p)
    ensures |heap| > 0 && list < |docs| && heap[0] < |docs| && docs[list] == docs[heap[0]]
  {
    assert at[0] in at;
  }

  // ----- the queue -----

  /** Moves the entry at `i` up to where its doc belongs. */
  method UpHeap(heap: seq<nat>, docs: seq<int>, start: nat) returns (r: seq<nat>)
    requires start < |heap| && Entries(heap, docs) && OrderedBut(heap, docs, start) && BelowHoleFine(heap, docs, start)
    ensures Ordered(r, docs) && multiset(r) == multiset(heap) && |r| == |heap|
  {
    r := heap;
    var i: nat, node := start, heap[start];
    while i > 0
      invariant i < |r| == |heap| && r[i] == node && Entries(r, docs) && multiset(r) == multiset(heap)
      invariant OrderedBut(r, docs, i) && BelowHoleFine(r, docs, i)
    {
      var j := Parent(i);
      if docs[node] >= docs[r[j]] {
        break;
      }
      SiftUpStep(r, docs, i);
      r := Swapped(r, i, j);
      i := j;
    }
    SiftUpDone(r, docs, i);
  }

  /** The child with the lesser doc, the left one on a tie. */
  method LesserDoc(heap: seq<nat>, docs: seq<int>, i: nat) returns (j: nat)
    requires 2 * i + 1 < |heap| && Entries(heap, docs)
    ensures i < j < |heap| && Parent(j) == i
    ensures forall k :: 0 < k < |heap| && Parent(k) == i ==> docs[heap[j]] <= docs[heap[k]]
  {
    j := 2 * i + 1;
    var k := j + 1;
    if k < |heap| && docs[heap[k]] < docs[heap[j]] {
      j := k;
    }
    forall c | 0 < c < |heap| && Parent(c) == i ensures docs[heap[j]] <= docs[heap[c]] {
      assert c == 2 * i + 1 || c == 2 * i + 2;
    }
  }

  /** Moves the root down to where its doc belongs. */
  method DownHeap(heap: seq<nat>, docs: seq<int>) returns (r: seq<nat>)
    requires |heap| > 0 && Entries(heap, docs) && OrderedBut(heap, docs, 0)
    ensures Ordered(r, docs) && multiset(r) == multiset(heap) && |r| == |heap|
  {
    r := heap;
    var i, node := 0, heap[0];
    while 2 * i + 1 < |r|
      invariant i < |r| == |heap| && r[i] == node && Entries(r, docs) && multiset(r) == multiset(heap)
        && OrderedBut(r, docs, i)
      invariant i > 0 ==> docs[r[Parent(i)]] <= docs[node]
      decreases |r| - i
    {
      var j := LesserDoc(r, docs, i);
      if docs[r[j]] >= docs[node] {
        break;
      }
      SiftDownStep(r, docs, i, j);
      r := Swapped(r, i, j);
      i := j;
    }
    SiftUpDone(r, docs, i);
  }

  lemma OnlyEarlier(heap: seq<nat>, s: seq<nat>)
    requires multiset(heap) == multiset(s) && forall k :: 0 <= k < |s| ==> s[k] == k
    ensures forall e :: e in heap ==> e < |s|
  {
    forall e | e in heap ensures e < |s| {
      assert e in multiset(heap);
      assert e in s;
    }
  }

  /** The last entry takes the place of the root. */
  lemma Refilled(heap: seq<nat>, docs: seq<int>, h: seq<nat>)
    requires Ordered(heap, docs) && Distinct(heap) && |heap| > 1 && h == heap[..|heap| - 1][0 := heap[|heap| - 1]]
    ensures Entries(h, docs) && OrderedBut(h, docs, 0) && Distinct(h)
      && multiset(h) + multiset{heap[0]} == multiset(heap)
  {
    var n := |heap| - 1;
    var rest := heap[1..n];
    assert heap == [heap[0]] + rest + [heap[n]];
    assert h == [heap[n]] + rest;
    forall j | 0 < j < n && Parent(j) != 0 ensures Above(h, docs, j) {
      assert Above(heap, docs, j);
    }
  }

  lemma StillDistinct(a: seq<nat>, b: seq<nat>)
    requires Distinct(a) && multiset(a) == multiset(b)
    ensures Distinct(b)
  {
    PermutedDistinct(a, b);
  }

  class DisiPriorityQueue {
    /** The doc every wrapper stands on. */
    var docs: seq<int>
    /** The wrappers in the queue, by number. */
    var heap: seq<nat>
    /** The link of every wrapper, -1 for none. */
    var next: seq<int>

    ghost predicate Valid()
      reads this
    {
      |next| == |docs| && Ordered(heap, docs) && Distinct(heap)
    }

    /** All children, pushed one by one. */
    constructor (docs: seq<int>)
      ensures Valid() && this.docs == docs && multiset(heap) == multiset(seq(|docs|, i => i))
      ensures next == seq(|docs|, _ => -1)
    {
      this.docs := docs;
      next := seq(|docs|, _ => -1);
      heap := [];
      new;
      ghost var all: seq<nat> := seq(|docs|, i => i);
      for i := 0 to |docs|
        invariant Valid() && this.docs == docs && multiset(heap) == multiset(all[..i])
        invariant next == seq(|docs|, _ => -1)
      {
        assert all[..i + 1] == all[..i] + [i];
        OnlyEarlier(heap, all[..i]);
        Push(i);
      }
      assert all[..|docs|] == all;
    }

    method Push(entry: nat)
      requires Valid() && entry < |docs| && entry !in heap
      modifies this`heap
      ensures Valid() && multiset(heap) == old(multiset(heap)) + multiset{entry}
    {
      var h := heap + [entry];
      var n := |heap|;
      forall j | 0 < j < |h| && j != n ensures Above(h, docs, j) {
        assert Above(heap, docs, j);
      }
      heap := UpHeap(h, docs, n);
      StillDistinct(h, heap);
    }

    /** Takes an entry on the least doc out of the queue. */
    method Pop() returns (entry: nat)
      requires Valid() && heap != []
      modifies this`heap
      ensures Valid() && multiset(heap) + multiset{entry} == old(multiset(heap))
      ensures entry < |docs| && forall e :: e in old(heap) ==> e < |docs| && docs[entry] <= docs[e]
    {
      RootsBelow(heap, docs);
      entry := heap[0];
      var n := |heap| - 1;
      var last := heap[n];
      if n > 0 {
        var h := heap[..n][0 := last];
        Refilled(heap, docs, h);
        heap := DownHeap(h, docs);
        StillDistinct(h, heap);
      } else {
        assert heap == [entry];
        heap := [];
      }
    }

    /** The doc of the entry at the root has changed: restores the order. */
    method UpdateTop(doc: int) returns (top: nat)
      requires Valid() && heap != []
      modifies this`heap, this`docs
      ensures Valid() && multiset(heap) == old(multiset(heap)) && docs == old(docs[heap[0] := doc])
      ensures top == heap[0] && forall e :: e in heap ==> e < |docs| && docs[top] <= docs[e]
    {
      ghost var was, root := docs, heap[0];
      docs := docs[heap[0] := doc];
      forall j | 0 < j < |heap| && Parent(j) != 0 ensures Above(heap, docs, j) {
        assert Above(heap, was, j);
        assert heap[j] != root && heap[Parent(j)] != root;
      }
      ghost var h := heap;
      heap := DownHeap(heap, docs);
      StillDistinct(h, heap);
      RootsBelow(heap, docs);
      top := heap[0];
    }

    /** Links exactly the entries on the least doc, each once: following the links from the
        result meets them all and comes to an end. */
    method TopList() returns (list: nat, ghost at: seq<nat>)
      requires Valid() && heap != []
      modifies this`next
      ensures Valid() && Linked(next, heap, list, at) && Distinct(at)
      ensures forall p: nat :: p in at <==> p < |heap| && docs[heap[p]] == docs[heap[0]]
    {
      hide Linked, AddsUnder, NoneUnder, Under, Above;
      list := heap[0];
      next := next[list := -1];
      at := [0];
      OnlyRoot(next, heap, docs);
      if |heap| >= 3 {
        next, list, at := TopListTo(heap, docs, next, list, 1, at);
        ghost var at1 := at;
        NoneUnderRight(heap, docs, 0, [], at1);
        AddedOnTop(heap, docs, 1, [0], at1);
        next, list, at := TopListTo(heap, docs, next, list, 2, at);
        AddsBoth(heap, docs, 0, [], at1, at);
      } else if |heap| == 2 {
        if docs[heap[1]] == docs[list] {
          NotInList(1, at);
          AddsLeaf(heap, docs, 1, at);
          Prepended(next, heap, list, at, 1);
          next := next[heap[1] := list];
          list, at := heap[1], [1] + at;
        } else {
          AddsNone(heap, docs, 1, at);
        }
        AddsOutside(heap, docs, 2, at, 1, [0]);
        AddsBoth(heap, docs, 0, [], at, at);
      } else {
        AddsLeaf(heap, docs, 0, []);
      }
      AddedAll(heap, docs, at);
    }
  }

  lemma OnlyRoot(next: seq<int>, heap: seq<nat>, docs: seq<int>)
    requires |heap| > 0 && Entries(heap, docs) && |next| == |docs| && next[heap[0]] == -1
    ensures Linked(next, heap, heap[0], [0]) && Distinct([0]) && NoneUnder(1, [0]) && NoneUnder(0, [])
      && [0] + [] == [0]
    ensures forall p :: p in [0] ==> OnTop(heap, docs, p)
  {
  }

  lemma AddedAll(heap: seq<nat>, docs: seq<int>, at: seq<nat>)
    requires AddsUnder(heap, docs, 0, [], at) && Entries(heap, docs)
    ensures Distinct(at) && forall p: nat :: p in at <==> p < |heap| && docs[heap[p]] == docs[heap[0]]
  {
    forall p: nat ensures p in at <==> OnTop(heap, docs, p) {
      UnderRoot(p);
    }
  }

  lemma RootsBelow(heap: seq<nat>, docs: seq<int>)
    requires Ordered(heap, docs) && heap != []
    ensures forall e :: e in heap ==> e < |docs| && docs[heap[0]] <= docs[e]
  {
    forall e | e in heap ensures e < |docs| && docs[heap[0]] <= docs[e] {
      var p :| 0 <= p < |heap| && heap[p] == e;
      RootIsLeast(heap, docs, p);
    }
  }
}
