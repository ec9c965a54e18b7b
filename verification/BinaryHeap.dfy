/** The array-backed binary heap (binary_heap.rs). `BinaryHeapPub` holds the greatest entry
    at its root; the entries merged here compare in reverse, so the root holds the least key.
    Entries are indices into `keys`; `rank` numbers the keys in their order. */
module BinaryHeap {
  import opened Lex

  ghost predicate Ranks(keys: seq<Term>, rank: seq<int>) {
    && |rank| == |keys|
    && (forall a, b :: 0 <= a < |keys| && 0 <= b < |keys| ==> (Less(keys[a], keys[b]) <==> rank[a] < rank[b]))
    && (forall a, b :: 0 <= a < |keys| && 0 <= b < |keys| ==> (keys[a] == keys[b] <==> rank[a] == rank[b]))
  }

  ghost predicate Entries(data: seq<nat>, rank: seq<int>) {
    forall i :: 0 <= i < |data| ==> data[i] < |rank|
  }

  function Parent(j: nat): nat
    requires j > 0
  {
    (j - 1) / 2
  }

  ghost predicate Above(data: seq<nat>, rank: seq<int>, j: nat)
    requires 0 < j < |data| && Entries(data, rank)
  {
    rank[data[Parent(j)]] <= rank[data[j]]
  }

  /** Every entry but `hole` is not below its parent, and the children of `hole` are not
      below the parent of `hole`. */
  ghost predicate OrderedBut(data: seq<nat>, rank: seq<int>, hole: nat)
    requires Entries(data, rank)
  {
    && (forall j :: 0 < j < |data| && j != hole && Parent(j) != hole ==> Above(data, rank, j))
    && (forall j :: 0 < j < |data| && 0 < hole < |data| && Parent(j) == hole ==>
          rank[data[Parent(hole)]] <= rank[data[j]])
  }

  ghost predicate Ordered(data: seq<nat>, rank: seq<int>) {
    Entries(data, rank) && forall j :: 0 < j < |data| ==> Above(data, rank, j)
  }

  lemma {:induction false} RootIsLeast(data: seq<nat>, rank: seq<int>, i: nat)
    requires Ordered(data, rank) && i < |data|
    ensures rank[data[0]] <= rank[data[i]]
  {
    if i > 0 {
      assert Above(data, rank, i);
      RootIsLeast(data, rank, Parent(i));
    }
  }

  function Swapped(s: seq<nat>, i: nat, j: nat): (r: seq<nat>)
    requires i < |s| && j < |s|
    ensures multiset(r) == multiset(s) && |r| == |s|
  {
    s[i := s[j]][j := s[i]]
  }

  /** The children of `hole` are not below the entry in it. */
  ghost predicate BelowHoleFine(data: seq<nat>, rank: seq<int>, hole: nat)
    requires Entries(data, rank) && hole < |data|
  {
    forall j :: 0 < j < |data| && Parent(j) == hole ==> rank[data[hole]] <= rank[data[j]]
  }

  lemma SiftUpStep(data: seq<nat>, rank: seq<int>, hole: nat)
    requires 0 < hole < |data| && Entries(data, rank)
    requires OrderedBut(data, rank, hole) && BelowHoleFine(data, rank, hole)
    requires rank[data[hole]] < rank[data[Parent(hole)]]
    ensures var r := Swapped(data, hole, Parent(hole));
            Entries(r, rank) && OrderedBut(r, rank, Parent(hole)) && BelowHoleFine(r, rank, Parent(hole))
  {
    var p := Parent(hole);
    var r := Swapped(data, hole, p);
    forall j | 0 < j < |r| && j != p && Parent(j) != p ensures Above(r, rank, j) {
      if Parent(j) != hole {
        assert Above(data, rank, j);
      }
    }
    forall j | 0 < j < |r| && Parent(j) == p
      ensures rank[r[p]] <= rank[r[j]]
      ensures p > 0 ==> rank[r[Parent(p)]] <= rank[r[j]]
    {
      if j != hole { assert Above(data, rank, j); }
      if p > 0 { assert Above(data, rank, p); }
    }
  }

  lemma SiftUpDone(data: seq<nat>, rank: seq<int>, hole: nat)
    requires hole < |data| && Entries(data, rank)
    requires OrderedBut(data, rank, hole) && BelowHoleFine(data, rank, hole)
    requires hole > 0 ==> rank[data[Parent(hole)]] <= rank[data[hole]]
    ensures Ordered(data, rank)
  {
    forall j | 0 < j < |data| ensures Above(data, rank, j) {
    }
  }

  /** Moves the entry at `pos` up while it is below its parent. */
  method SiftUp(data: seq<nat>, pos: nat, keys: seq<Term>, ghost rank: seq<int>) returns (r: seq<nat>)
    requires pos < |data| && Ranks(keys, rank) && Entries(data, rank)
    requires OrderedBut(data, rank, pos) && BelowHoleFine(data, rank, pos)
    ensures Ordered(r, rank) && multiset(r) == multiset(data) && |r| == |data|
  {
    r := data;
    var hole: nat, elt: nat := pos, data[pos];
    while hole > 0
      invariant hole < |r| == |data| && r[hole] == elt && Entries(r, rank) && multiset(r) == multiset(data)
      invariant OrderedBut(r, rank, hole) && BelowHoleFine(r, rank, hole)
    {
      var parent := Parent(hole);
      if !Less(keys[elt], keys[r[parent]]) {
        break;
      }
      SiftUpStep(r, rank, hole);
      r := Swapped(r, hole, parent);
      hole := parent;
    }
    SiftUpDone(r, rank, hole);
  }

  /** The child of `pos` with the lesser key, the right one on a tie. */
  method LesserChild(data: seq<nat>, pos: nat, keys: seq<Term>, ghost rank: seq<int>) returns (child: nat)
    requires 2 * pos + 1 < |data| && Ranks(keys, rank) && Entries(data, rank)
    ensures pos < child < |data| && Parent(child) == pos
    ensures forall j :: 0 < j < |data| && Parent(j) == pos ==> rank[data[child]] <= rank[data[j]]
  {
    child := 2 * pos + 1;
    var right := child + 1;
    if right < |data| && !Less(keys[data[child]], keys[data[right]]) {
      child := right;
    }
    forall j | 0 < j < |data| && Parent(j) == pos ensures rank[data[child]] <= rank[data[j]] {
      assert j == 2 * pos + 1 || j == 2 * pos + 2;
    }
  }

  lemma SiftDownStep(data: seq<nat>, rank: seq<int>, hole: nat, child: nat)
    requires 0 < child < |data| && Parent(child) == hole && Entries(data, rank)
    requires OrderedBut(data, rank, hole)
    requires forall j :: 0 < j < |data| && Parent(j) == hole ==> rank[data[child]] <= rank[data[j]]
    ensures var r := Swapped(data, hole, child); Entries(r, rank) && OrderedBut(r, rank, child)
  {
    var r := Swapped(data, hole, child);
    forall j | 0 < j < |r| && j != child && Parent(j) != child ensures Above(r, rank, j) {
      if j != hole && Parent(j) != hole { assert Above(data, rank, j); }
    }
    forall j | 0 < j < |r| && Parent(j) == child ensures rank[r[Parent(child)]] <= rank[r[j]] {
      assert Above(data, rank, j);
    }
  }

  /** Moves the root down while a child is below it: the effect of dropping a `PeekMut`. */
  method SiftDown(data: seq<nat>, keys: seq<Term>, ghost rank: seq<int>) returns (r: seq<nat>)
    requires |data| > 0 && Ranks(keys, rank) && Entries(data, rank) && OrderedBut(data, rank, 0)
    ensures Ordered(r, rank) && multiset(r) == multiset(data) && |r| == |data|
    ensures BelowHoleFine(data, rank, 0) ==> r == data
  {
    r := data;
    var hole: nat, elt := 0, data[0];
    while 2 * hole + 1 < |r|
      invariant hole < |r| == |data| && r[hole] == elt && Entries(r, rank) && multiset(r) == multiset(data)
      invariant OrderedBut(r, rank, hole)
      invariant hole > 0 ==> rank[r[Parent(hole)]] <= rank[elt]
      invariant BelowHoleFine(data, rank, 0) ==> r == data && hole == 0
      decreases |r| - hole
    {
      var child := LesserChild(r, hole, keys, rank);
      if !Less(keys[r[child]], keys[elt]) {
        break;
      }
      SiftDownStep(r, rank, hole, child);
      r := Swapped(r, hole, child);
      hole := child;
    }
    SiftUpDone(r, rank, hole);
  }

  /** Moves the root to the bottom and back up: how `pop` refills the root. */
  method SiftDownToBottom(data: seq<nat>, keys: seq<Term>, ghost rank: seq<int>) returns (r: seq<nat>)
    requires |data| > 0 && Ranks(keys, rank) && Entries(data, rank) && OrderedBut(data, rank, 0)
    ensures Ordered(r, rank) && multiset(r) == multiset(data) && |r| == |data|
  {
    r := data;
    var hole := 0;
    while 2 * hole + 1 < |r|
      invariant hole < |r| == |data| && Entries(r, rank) && multiset(r) == multiset(data)
      invariant OrderedBut(r, rank, hole)
      decreases |r| - hole
    {
      var child := LesserChild(r, hole, keys, rank);
      SiftDownStep(r, rank, hole, child);
      r := Swapped(r, hole, child);
      hole := child;
    }
    r := SiftUp(r, hole, keys, rank);
  }

  method Push(data: seq<nat>, item: nat, keys: seq<Term>, ghost rank: seq<int>) returns (r: seq<nat>)
    requires Ranks(keys, rank) && Ordered(data, rank) && item < |keys|
    ensures Ordered(r, rank) && multiset(r) == multiset(data) + multiset{item}
  {
    var d := data + [item];
    forall j | 0 < j < |d| && j != |data| ensures Above(d, rank, j) { assert Above(data, rank, j); }
    r := SiftUp(d, |data|, keys, rank);
  }

  method Pop(data: seq<nat>, keys: seq<Term>, ghost rank: seq<int>) returns (item: nat, r: seq<nat>)
    requires |data| > 0 && Ranks(keys, rank) && Ordered(data, rank)
    ensures item == data[0] && Ordered(r, rank) && multiset(r) + multiset{item} == multiset(data)
  {
    var n := |data| - 1;
    item, r := data[n], data[..n];
    assert data == r + [item];
    if n > 0 {
      forall j | 0 < j < n && Parent(j) != 0 ensures Above(r, rank, j) { assert Above(data, rank, j); }
      var root := r[0];
      r, item := r[0 := item], root;
      forall j | 0 < j < n && Parent(j) != 0 ensures Above(r, rank, j) { assert Above(data, rank, j); }
      r := SiftDownToBottom(r, keys, rank);
    }
  }
}
