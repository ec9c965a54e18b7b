/** Slicing the leaves of an index for parallel search, and counting hits over a channel
    (searcher.rs). A leaf is known by its number; `sizes` gives the max doc of each. */
module LeafSlices {
  import opened Sequences
  import opened Sorter

  // ----- sums over lists of leaves -----

  ghost function Total(s: seq<nat>, f: nat -> nat): nat {
    if s == [] then 0 else Total(s[..|s| - 1], f) + f(s[|s| - 1])
  }

  lemma {:induction false} TotalConcat(s: seq<nat>, t: seq<nat>, f: nat -> nat)
    ensures Total(s + t, f) == Total(s, f) + Total(t, f)
  {
    if t == [] {
      assert s + t == s;
    } else {
      var n := |t| - 1;
      TotalConcat(s, t[..n], f);
      assert (s + t)[..|s| + n] == s + t[..n];
    }
  }

  lemma TotalOne(x: nat, f: nat -> nat)
    ensures Total([x], f) == f(x)
  {
    assert [x][..0] == [];
  }

  lemma TotalWithout(s: seq<nat>, k: nat, f: nat -> nat)
    requires k < |s|
    ensures Total(s, f) == Total(s[..k] + s[k + 1..], f) + f(s[k])
  {
    hide Total;
    var front, rest := s[..k], s[k + 1..];
    assert s == front + ([s[k]] + rest);
    TotalConcat(front, [s[k]] + rest, f);
    TotalConcat([s[k]], rest, f);
    TotalConcat(front, rest, f);
    TotalOne(s[k], f);
  }

  lemma RemovedSame(s: seq<nat>, t: seq<nat>, k: nat)
    requires multiset(s) == multiset(t) && s != [] && k < |t| && t[k] == s[|s| - 1]
    ensures multiset(s[..|s| - 1]) == multiset(t[..k] + t[k + 1..])
  {
    var x, front, rest := t[k], t[..k], t[k + 1..];
    assert s == s[..|s| - 1] + [x];
    assert t == front + [x] + rest;
    assert multiset(s) == multiset(s[..|s| - 1]) + multiset{x};
    assert multiset(t) == multiset(front) + multiset{x} + multiset(rest);
    Cancel(multiset(s[..|s| - 1]), multiset(front + rest), multiset{x});
  }

  lemma Cancel(a: multiset<nat>, b: multiset<nat>, x: multiset<nat>)
    requires a + x == b + x
    ensures a == b
  {
    forall y ensures a[y] == b[y] {
      assert (a + x)[y] == (b + x)[y];
    }
  }

  /** A sum does not depend on the order. */
  lemma {:induction false} TotalPermuted(s: seq<nat>, t: seq<nat>, f: nat -> nat)
    requires multiset(s) == multiset(t)
    ensures Total(s, f) == Total(t, f)
    decreases |s|
  {
    if s == [] {
      assert |multiset(t)| == |multiset(s)|;
    } else {
      var n := |s| - 1;
      var x := s[n];
      assert x in multiset(t);
      var k :| 0 <= k < |t| && t[k] == x;
      RemovedSame(s, t, k);
      TotalWithout(t, k, f);
      TotalPermuted(s[..n], t[..k] + t[k + 1..], f);
    }
  }

  ghost function Flat(slices: seq<seq<nat>>): seq<nat> {
    if slices == [] then [] else Flat(slices[..|slices| - 1]) + slices[|slices| - 1]
  }

  lemma FlatPush(slices: seq<seq<nat>>, s: seq<nat>)
    ensures Flat(slices + [s]) == Flat(slices) + s
  {
    assert (slices + [s])[..|slices|] == slices;
  }

  // ----- slicing -----

  ghost function SizeOf(sizes: seq<nat>): nat -> nat {
    (ord: nat) => if ord < |sizes| then sizes[ord] else 0
  }

  ghost predicate Ascending(s: seq<nat>) {
    forall i, j :: 0 <= i < j < |s| ==> s[i] <= s[j]
  }

  ghost predicate AllSmall(s: seq<nat>, f: nat -> nat, maxDocs: int) {
    forall x :: x in s ==> f(x) < maxDocs
  }

  /** A slice of more than one leaf keeps both limits and has no large leaf. */
  ghost predicate InLimits(s: seq<nat>, sizes: seq<nat>, maxDocs: int, maxSegments: nat) {
    && Ascending(s)
    && (|s| > 1 ==> |s| <= maxSegments && Total(s, SizeOf(sizes)) <= maxDocs && AllSmall(s, SizeOf(sizes), maxDocs))
  }

  /** The leaves in the order of their size. */
  method BySize(sizes: seq<nat>) returns (r: seq<nat>)
    ensures |r| == |sizes| && multiset(r) == multiset(seq(|sizes|, i => i))
    ensures forall k :: 0 <= k < |r| ==> r[k] < |sizes|
    ensures forall i, j :: 0 <= i < j < |r| ==> SizeOf(sizes)(r[i]) <= SizeOf(sizes)(r[j])
  {
    var n := |sizes|;
    ghost var all: seq<nat> := seq(n, i => i);
    var a := new nat[n](i => i);
    assert a[..] == all;
    var less := (x: nat, y: nat) => (if x < n then sizes[x] else 0) < (if y < n then sizes[y] else 0);
    MergeSort(a, less, SizeOf(sizes), set x | x in all, 0, n);
    r := a[..];
    forall k | 0 <= k < n ensures r[k] < n {
      assert r[k] in multiset(r);
      assert r[k] in all;
    }
  }

  /** What has been sliced so far, with the slice that is being filled. */
  ghost predicate Sliced(slices: seq<seq<nat>>, ords: seq<nat>, done: seq<nat>, sizes: seq<nat>,
                         maxDocs: int, maxSegments: nat)
  {
    && multiset(Flat(slices) + ords) == multiset(done)
    && (forall k :: 0 <= k < |slices| ==> InLimits(slices[k], sizes, maxDocs, maxSegments))
  }

  lemma PushSlice(slices: seq<seq<nat>>, ords: seq<nat>, rest: seq<nat>, s: seq<nat>, done: seq<nat>,
                  done': seq<nat>, sizes: seq<nat>, maxDocs: int, maxSegments: nat)
    requires Sliced(slices, ords, done, sizes, maxDocs, maxSegments)
    requires InLimits(s, sizes, maxDocs, maxSegments)
    requires multiset(s) + multiset(rest) + multiset(done) == multiset(ords) + multiset(done')
    ensures Sliced(slices + [s], rest, done', sizes, maxDocs, maxSegments)
  {
    hide InLimits;
    FlatPush(slices, s);
    var f, g := Flat(slices) + ords, Flat(slices) + s + rest;
    forall x ensures multiset(g)[x] == multiset(done')[x] {
      assert multiset(g)[x] == multiset(Flat(slices))[x] + multiset(s)[x] + multiset(rest)[x];
      assert multiset(f)[x] == multiset(Flat(slices))[x] + multiset(ords)[x];
      assert (multiset(s) + multiset(rest) + multiset(done))[x] == (multiset(ords) + multiset(done'))[x];
    }
  }

  lemma SortedInLimits(ords: seq<nat>, s: seq<nat>, sizes: seq<nat>, maxDocs: int, maxSegments: nat)
    requires multiset(s) == multiset(ords) && Ascending(s)
    requires |ords| > 1 ==> |ords| <= maxSegments && Total(ords, SizeOf(sizes)) <= maxDocs
    requires AllSmall(ords, SizeOf(sizes), maxDocs)
    ensures InLimits(s, sizes, maxDocs, maxSegments) && (ords != [] <==> s != [])
  {
    TotalPermuted(s, ords, SizeOf(sizes));
    SameMembers(s, ords);
    assert |multiset(s)| == |multiset(ords)|;
  }

  // ----- which slices are empty -----

  ghost predicate SomeEmpty(slices: seq<seq<nat>>) {
    exists k :: 0 <= k < |slices| && slices[k] == []
  }

  ghost predicate SomeSmall(leaves: seq<nat>, f: nat -> nat, maxDocs: int) {
    exists x :: x in leaves && f(x) < maxDocs
  }

  /** An empty slice is there exactly if no leaf fits into a slice and a small leaf was met. */
  ghost predicate Empties(slices: seq<seq<nat>>, ords: seq<nat>, done: seq<nat>, f: nat -> nat,
                          maxDocs: int, maxSegments: nat)
  {
    && (SomeEmpty(slices) <==> maxSegments == 0 && SomeSmall(done, f, maxDocs))
    && (ords != [] ==> SomeSmall(done, f, maxDocs))
  }

  lemma EmptyPush(slices: seq<seq<nat>>, s: seq<nat>)
    ensures SomeEmpty(slices + [s]) <==> SomeEmpty(slices) || s == []
  {
    var all := slices + [s];
    assert all[|slices|] == s;
    assert forall k :: 0 <= k < |slices| ==> all[k] == slices[k];
  }

  lemma SmallAdd(leaves: seq<nat>, leaf: nat, f: nat -> nat, maxDocs: int)
    ensures SomeSmall(leaves + [leaf], f, maxDocs) <==> SomeSmall(leaves, f, maxDocs) || f(leaf) < maxDocs
  {
    assert forall x :: x in leaves + [leaf] <==> x in leaves || x == leaf;
  }

  // ----- in which order the slices come -----

  ghost predicate NoneAbove(s: seq<nat>, t: seq<nat>, f: nat -> nat) {
    forall x, y :: x in s && y in t ==> f(x) <= f(y)
  }

  ghost predicate SmallNotAbove(s: seq<nat>, t: seq<nat>, f: nat -> nat, maxDocs: int) {
    forall x, y :: x in s && y in t ==> f(x) <= f(y) || f(x) >= maxDocs
  }

  /** The slices closed so far rise in size; only a large leaf can be above the slice being filled. */
  ghost predicate Rising(slices: seq<seq<nat>>, ords: seq<nat>, f: nat -> nat, maxDocs: int) {
    && (forall k, l :: 0 <= k < l < |slices| ==> NoneAbove(slices[k], slices[l], f))
    && (forall k :: 0 <= k < |slices| ==> SmallNotAbove(slices[k], ords, f, maxDocs))
    && (forall y :: y in ords ==> f(y) < maxDocs)
  }

  ghost predicate AllBelow(slices: seq<seq<nat>>, ords: seq<nat>, leaf: nat, f: nat -> nat) {
    NoneAbove(ords, [leaf], f) && forall k :: 0 <= k < |slices| ==> NoneAbove(slices[k], [leaf], f)
  }

  lemma {:induction false} InFlat(slices: seq<seq<nat>>, k: nat, x: nat)
    requires k < |slices| && x in slices[k]
    ensures x in Flat(slices)
  {
    if k < |slices| - 1 {
      InFlat(slices[..|slices| - 1], k, x);
    }
  }

  lemma DoneBelow(slices: seq<seq<nat>>, ords: seq<nat>, done: seq<nat>, leaf: nat, sizes: seq<nat>,
                  maxDocs: int, maxSegments: nat)
    requires Sliced(slices, ords, done, sizes, maxDocs, maxSegments) && NoneAbove(done, [leaf], SizeOf(sizes))
    ensures AllBelow(slices, ords, leaf, SizeOf(sizes))
  {
    var f, all := SizeOf(sizes), Flat(slices) + ords;
    assert leaf in [leaf];
    SameMembers(all, done);
    assert forall x :: x in all ==> f(x) <= f(leaf);
    forall k, x | 0 <= k < |slices| && x in slices[k] ensures f(x) <= f(leaf) {
      InFlat(slices, k, x);
    }
  }

  lemma RisingLarge(slices: seq<seq<nat>>, ords: seq<nat>, leaf: nat, f: nat -> nat, maxDocs: int)
    requires Rising(slices, ords, f, maxDocs) && AllBelow(slices, ords, leaf, f) && f(leaf) >= maxDocs
    ensures Rising(slices + [[leaf]], ords, f, maxDocs)
  {
  }

  lemma RisingClosed(slices: seq<seq<nat>>, ords: seq<nat>, s: seq<nat>, leaf: nat, f: nat -> nat, maxDocs: int)
    requires Rising(slices, ords, f, maxDocs) && AllBelow(slices, ords, leaf, f) && f(leaf) < maxDocs
    requires multiset(s) == multiset(ords)
    ensures Rising(slices + [s], [], f, maxDocs) && AllBelow(slices + [s], [], leaf, f)
  {
    SameMembers(s, ords);
    assert leaf in [leaf];
    forall k | 0 <= k < |slices| ensures NoneAbove(slices[k], s, f) {
      assert NoneAbove(slices[k], [leaf], f) && SmallNotAbove(slices[k], ords, f, maxDocs);
    }
  }

  lemma RisingAdd(slices: seq<seq<nat>>, ords: seq<nat>, leaf: nat, f: nat -> nat, maxDocs: int)
    requires Rising(slices, ords, f, maxDocs) && AllBelow(slices, ords, leaf, f) && f(leaf) < maxDocs
    ensures Rising(slices, ords + [leaf], f, maxDocs)
  {
    assert leaf in [leaf];
    forall k | 0 <= k < |slices| ensures SmallNotAbove(slices[k], ords + [leaf], f, maxDocs) {
      assert NoneAbove(slices[k], [leaf], f) && SmallNotAbove(slices[k], ords, f, maxDocs);
    }
  }

  /** Slices come in the order of their leaves' sizes, except that the last slice of small leaves
      stands behind the large leaves. */
  ghost predicate InOrder(slices: seq<seq<nat>>, f: nat -> nat, maxDocs: int) {
    && (forall k, l :: 0 <= k < l < |slices| - 1 ==> NoneAbove(slices[k], slices[l], f))
    && (forall k :: 0 <= k < |slices| - 1 ==> SmallNotAbove(slices[k], slices[|slices| - 1], f, maxDocs))
  }

  lemma RisingLast(slices: seq<seq<nat>>, ords: seq<nat>, s: seq<nat>, f: nat -> nat, maxDocs: int)
    requires Rising(slices, ords, f, maxDocs)
    ensures InOrder(slices, f, maxDocs)
    ensures multiset(s) == multiset(ords) ==> InOrder(slices + [s], f, maxDocs)
  {
    var all := slices + [s];
    if multiset(s) == multiset(ords) {
      SameMembers(s, ords);
      forall k | 0 <= k < |slices| ensures SmallNotAbove(all[k], s, f, maxDocs) {
        assert all[k] == slices[k] && SmallNotAbove(slices[k], ords, f, maxDocs);
      }
    }
    assert forall k :: 0 <= k < |slices| - 1 ==> NoneAbove(slices[k], slices[|slices| - 1], f);
  }

  // ----- slices are as full as the limits allow -----

  /** A leaf of `size` documents does not go into the slice any more. */
  ghost predicate NoRoom(s: seq<nat>, f: nat -> nat, size: int, maxDocs: int, maxSegments: nat) {
    |s| >= maxSegments || Total(s, f) + size > maxDocs
  }

  /** If `s` is a slice of small leaves, no small leaf of `t` would go into it. */
  ghost predicate FullBefore(s: seq<nat>, t: seq<nat>, f: nat -> nat, maxDocs: int, maxSegments: nat) {
    AllSmall(s, f, maxDocs) ==>
      forall x :: x in t && f(x) < maxDocs ==> NoRoom(s, f, f(x), maxDocs, maxSegments)
  }

  /** No small leaf would go into an earlier slice of small leaves. */
  ghost predicate Full(slices: seq<seq<nat>>, f: nat -> nat, maxDocs: int, maxSegments: nat) {
    forall k, l :: 0 <= k < l < |slices| ==> FullBefore(slices[k], slices[l], f, maxDocs, maxSegments)
  }

  /** The same for the slice that is being filled, and for any leaf of `size` documents or more. */
  ghost predicate Filled(slices: seq<seq<nat>>, ords: seq<nat>, f: nat -> nat, size: int, maxDocs: int,
                         maxSegments: nat)
  {
    && Full(slices, f, maxDocs, maxSegments)
    && (forall k :: 0 <= k < |slices| ==> FullBefore(slices[k], ords, f, maxDocs, maxSegments))
    && (forall k :: 0 <= k < |slices| && AllSmall(slices[k], f, maxDocs) ==>
          NoRoom(slices[k], f, size, maxDocs, maxSegments))
  }

  lemma FilledLarger(slices: seq<seq<nat>>, ords: seq<nat>, f: nat -> nat, size: int, larger: int, maxDocs: int,
                     maxSegments: nat)
    requires Filled(slices, ords, f, size, maxDocs, maxSegments) && size <= larger
    ensures Filled(slices, ords, f, larger, maxDocs, maxSegments)
  {
    hide Full, FullBefore;
  }

  lemma FilledLarge(slices: seq<seq<nat>>, ords: seq<nat>, leaf: nat, f: nat -> nat, maxDocs: int, maxSegments: nat)
    requires Filled(slices, ords, f, f(leaf), maxDocs, maxSegments) && f(leaf) >= maxDocs
    ensures Filled(slices + [[leaf]], ords, f, f(leaf), maxDocs, maxSegments)
  {
    assert leaf in [leaf];
    assert !AllSmall([leaf], f, maxDocs);
  }

  lemma FilledClosed(slices: seq<seq<nat>>, ords: seq<nat>, s: seq<nat>, f: nat -> nat, size: int, maxDocs: int,
                     maxSegments: nat)
    requires Filled(slices, ords, f, size, maxDocs, maxSegments) && multiset(s) == multiset(ords)
    requires NoRoom(ords, f, size, maxDocs, maxSegments)
    ensures Filled(slices + [s], [], f, size, maxDocs, maxSegments)
  {
    SameMembers(s, ords);
    TotalPermuted(s, ords, f);
    assert |multiset(s)| == |multiset(ords)|;
    hide Total;
  }

  lemma FilledAdd(slices: seq<seq<nat>>, ords: seq<nat>, leaf: nat, f: nat -> nat, maxDocs: int, maxSegments: nat)
    requires Filled(slices, ords, f, f(leaf), maxDocs, maxSegments)
    ensures Filled(slices, ords + [leaf], f, f(leaf), maxDocs, maxSegments)
  {
    hide Full, NoRoom;
    assert forall x :: x in ords + [leaf] <==> x in ords || x == leaf;
  }

  lemma FilledLast(slices: seq<seq<nat>>, ords: seq<nat>, s: seq<nat>, f: nat -> nat, size: int, maxDocs: int,
                   maxSegments: nat)
    requires Filled(slices, ords, f, size, maxDocs, maxSegments) && multiset(s) == multiset(ords)
    ensures Full(slices, f, maxDocs, maxSegments) && Full(slices + [s], f, maxDocs, maxSegments)
  {
    hide NoRoom;
    SameMembers(s, ords);
  }

  // ----- the loop -----

  /** The slice that is being filled and the number of documents in it. */
  ghost predicate Filling(ords: seq<nat>, docSum: nat, sizes: seq<nat>, maxDocs: int, maxSegments: nat) {
    && docSum == Total(ords, SizeOf(sizes)) && (|ords| > 1 ==> |ords| <= maxSegments && docSum <= maxDocs)
    && AllSmall(ords, SizeOf(sizes), maxDocs)
  }

  /** What holds once the leaves `done` have been sliced, the last of them of `size` documents. */
  ghost predicate Partial(slices: seq<seq<nat>>, ords: seq<nat>, docSum: nat, done: seq<nat>, sizes: seq<nat>,
                          maxDocs: int, maxSegments: nat, size: int)
  {
    && Sliced(slices, ords, done, sizes, maxDocs, maxSegments)
    && Empties(slices, ords, done, SizeOf(sizes), maxDocs, maxSegments)
    && Rising(slices, ords, SizeOf(sizes), maxDocs) && Filling(ords, docSum, sizes, maxDocs, maxSegments)
    && Filled(slices, ords, SizeOf(sizes), size, maxDocs, maxSegments)
  }

  lemma NothingSliced(sizes: seq<nat>, maxDocs: int, maxSegments: nat)
    ensures Partial([], [], 0, [], sizes, maxDocs, maxSegments, 0)
  {
  }

  lemma OneLeaf(leaf: nat, sizes: seq<nat>, maxDocs: int, maxSegments: nat)
    ensures InLimits([leaf], sizes, maxDocs, maxSegments)
  {
  }

  lemma AddLeaf(slices: seq<seq<nat>>, ords: seq<nat>, leaf: nat, done: seq<nat>, done': seq<nat>,
                sizes: seq<nat>, maxDocs: int, maxSegments: nat)
    requires Sliced(slices, ords, done, sizes, maxDocs, maxSegments) && done' == done + [leaf]
    ensures Sliced(slices, ords + [leaf], done', sizes, maxDocs, maxSegments)
  {
    hide InLimits;
    assert Flat(slices) + (ords + [leaf]) == (Flat(slices) + ords) + [leaf];
  }

  lemma FillingAdd(ords: seq<nat>, docSum: nat, leaf: nat, sizes: seq<nat>, maxDocs: int, maxSegments: nat)
    requires Filling(ords, docSum, sizes, maxDocs, maxSegments) && leaf < |sizes| && sizes[leaf] < maxDocs
    requires ords == [] || (docSum + sizes[leaf] <= maxDocs && |ords| < maxSegments)
    ensures Filling(ords + [leaf], docSum + sizes[leaf], sizes, maxDocs, maxSegments)
  {
    TotalConcat(ords, [leaf], SizeOf(sizes));
    TotalOne(leaf, SizeOf(sizes));
    assert forall x :: x in ords + [leaf] <==> x in ords || x == leaf;
  }

  lemma EmptiesLarge(slices: seq<seq<nat>>, ords: seq<nat>, leaf: nat, done: seq<nat>, f: nat -> nat, maxDocs: int,
                     maxSegments: nat)
    requires Empties(slices, ords, done, f, maxDocs, maxSegments) && f(leaf) >= maxDocs
    ensures Empties(slices + [[leaf]], ords, done + [leaf], f, maxDocs, maxSegments)
  {
    hide SomeEmpty, SomeSmall;
    SmallAdd(done, leaf, f, maxDocs);
    EmptyPush(slices, [leaf]);
  }

  lemma EmptiesAdd(slices: seq<seq<nat>>, ords: seq<nat>, leaf: nat, done: seq<nat>, f: nat -> nat, maxDocs: int,
                   maxSegments: nat)
    requires Empties(slices, ords, done, f, maxDocs, maxSegments) && f(leaf) < maxDocs && maxSegments > 0
    ensures Empties(slices, ords + [leaf], done + [leaf], f, maxDocs, maxSegments)
  {
    hide SomeEmpty, SomeSmall;
    SmallAdd(done, leaf, f, maxDocs);
  }

  lemma EmptiesClosed(slices: seq<seq<nat>>, ords: seq<nat>, s: seq<nat>, leaf: nat, done: seq<nat>, f: nat -> nat,
                      maxDocs: int, maxSegments: nat)
    requires Empties(slices, ords, done, f, maxDocs, maxSegments) && f(leaf) < maxDocs
    requires (s == [] <==> ords == []) && (maxSegments > 0 ==> ords != [])
    ensures Empties(slices + [s], [leaf], done + [leaf], f, maxDocs, maxSegments)
  {
    hide SomeEmpty, SomeSmall;
    SmallAdd(done, leaf, f, maxDocs);
    EmptyPush(slices, s);
  }

  /** A large leaf gets a slice of its own. */
  lemma LargeTaken(slices: seq<seq<nat>>, ords: seq<nat>, docSum: nat, leaf: nat, done: seq<nat>, sizes: seq<nat>,
                   maxDocs: int, maxSegments: nat, size: int)
    requires Partial(slices, ords, docSum, done, sizes, maxDocs, maxSegments, size)
    requires leaf < |sizes| && size <= sizes[leaf] && NoneAbove(done, [leaf], SizeOf(sizes)) && sizes[leaf] >= maxDocs
    ensures Partial(slices + [[leaf]], ords, docSum, done + [leaf], sizes, maxDocs, maxSegments, sizes[leaf])
  {
    hide InLimits, Sliced, Rising, AllBelow, NoneAbove, Empties, Flat, Filled, Filling;
    var f := SizeOf(sizes);
    DoneBelow(slices, ords, done, leaf, sizes, maxDocs, maxSegments);
    FilledLarger(slices, ords, f, size, sizes[leaf], maxDocs, maxSegments);
    OneLeaf(leaf, sizes, maxDocs, maxSegments);
    PushSlice(slices, ords, ords, [leaf], done, done + [leaf], sizes, maxDocs, maxSegments);
    RisingLarge(slices, ords, leaf, f, maxDocs);
    FilledLarge(slices, ords, leaf, f, maxDocs, maxSegments);
    EmptiesLarge(slices, ords, leaf, done, f, maxDocs, maxSegments);
  }

  /** A small leaf goes into the slice that is being filled. */
  lemma SmallTaken(slices: seq<seq<nat>>, ords: seq<nat>, docSum: nat, leaf: nat, done: seq<nat>, sizes: seq<nat>,
                   maxDocs: int, maxSegments: nat, size: int)
    requires Partial(slices, ords, docSum, done, sizes, maxDocs, maxSegments, size)
    requires leaf < |sizes| && size <= sizes[leaf] && NoneAbove(done, [leaf], SizeOf(sizes)) && sizes[leaf] < maxDocs
    requires docSum + sizes[leaf] <= maxDocs && |ords| < maxSegments
    ensures Partial(slices, ords + [leaf], docSum + sizes[leaf], done + [leaf], sizes, maxDocs, maxSegments,
                    sizes[leaf])
  {
    hide InLimits, Sliced, Rising, AllBelow, NoneAbove, Empties, Flat, Filled, Filling;
    var f := SizeOf(sizes);
    DoneBelow(slices, ords, done, leaf, sizes, maxDocs, maxSegments);
    FilledLarger(slices, ords, f, size, sizes[leaf], maxDocs, maxSegments);
    AddLeaf(slices, ords, leaf, done, done + [leaf], sizes, maxDocs, maxSegments);
    RisingAdd(slices, ords, leaf, f, maxDocs);
    FilledAdd(slices, ords, leaf, f, maxDocs, maxSegments);
    FillingAdd(ords, docSum, leaf, sizes, maxDocs, maxSegments);
    EmptiesAdd(slices, ords, leaf, done, f, maxDocs, maxSegments);
  }

  lemma FillingFacts(ords: seq<nat>, docSum: nat, sizes: seq<nat>, maxDocs: int, maxSegments: nat)
    requires Filling(ords, docSum, sizes, maxDocs, maxSegments)
    ensures docSum == Total(ords, SizeOf(sizes)) && (|ords| > 1 ==> |ords| <= maxSegments && docSum <= maxDocs)
    ensures AllSmall(ords, SizeOf(sizes), maxDocs) && (ords == [] ==> docSum == 0)
  {
  }

  /** A small leaf that the slice being filled has no room for starts the next one. */
  lemma ClosedTaken(slices: seq<seq<nat>>, ords: seq<nat>, s: seq<nat>, docSum: nat, leaf: nat, done: seq<nat>,
                    sizes: seq<nat>, maxDocs: int, maxSegments: nat, size: int)
    requires Partial(slices, ords, docSum, done, sizes, maxDocs, maxSegments, size)
    requires leaf < |sizes| && size <= sizes[leaf] && NoneAbove(done, [leaf], SizeOf(sizes)) && sizes[leaf] < maxDocs
    requires docSum + sizes[leaf] > maxDocs || |ords| >= maxSegments
    requires multiset(s) == multiset(ords) && Ascending(s)
    ensures Partial(slices + [s], [leaf], sizes[leaf], done + [leaf], sizes, maxDocs, maxSegments, sizes[leaf])
  {
    hide InLimits, Sliced, Rising, AllBelow, NoneAbove, Empties, Flat, Filled, Filling, Ascending, Total;
    var f := SizeOf(sizes);
    FillingFacts(ords, docSum, sizes, maxDocs, maxSegments);
    DoneBelow(slices, ords, done, leaf, sizes, maxDocs, maxSegments);
    FilledLarger(slices, ords, f, size, sizes[leaf], maxDocs, maxSegments);
    SortedInLimits(ords, s, sizes, maxDocs, maxSegments);
    PushSlice(slices, ords, [], s, done, done, sizes, maxDocs, maxSegments);
    RisingClosed(slices, ords, s, leaf, f, maxDocs);
    FilledClosed(slices, ords, s, f, sizes[leaf], maxDocs, maxSegments);
    AddLeaf(slices + [s], [], leaf, done, done + [leaf], sizes, maxDocs, maxSegments);
    RisingAdd(slices + [s], [], leaf, f, maxDocs);
    FilledAdd(slices + [s], [], leaf, f, maxDocs, maxSegments);
    StartedFilling(leaf, sizes, maxDocs, maxSegments);
    EmptiesClosed(slices, ords, s, leaf, done, f, maxDocs, maxSegments);
    assert [] + [leaf] == [leaf];
  }

  lemma StartedFilling(leaf: nat, sizes: seq<nat>, maxDocs: int, maxSegments: nat)
    requires leaf < |sizes| && sizes[leaf] < maxDocs
    ensures Filling([leaf], sizes[leaf], sizes, maxDocs, maxSegments)
  {
    TotalOne(leaf, SizeOf(sizes));
  }

  lemma SmallLeaves(leaves: seq<nat>, sizes: seq<nat>, maxDocs: int)
    requires multiset(leaves) == multiset(seq(|sizes|, i => i))
    ensures SomeSmall(leaves, SizeOf(sizes), maxDocs) <==> exists i :: 0 <= i < |sizes| && sizes[i] < maxDocs
  {
    var all: seq<nat> := seq(|sizes|, i => i);
    SameMembers(leaves, all);
    forall x: nat ensures x in leaves <==> x < |sizes| {
      assert x < |sizes| ==> all[x] == x;
    }
    var f := SizeOf(sizes);
    assert forall x: nat :: x < |sizes| ==> f(x) == sizes[x];
    if SomeSmall(leaves, f, maxDocs) {
      var x :| x in leaves && f(x) < maxDocs;
      assert sizes[x] < maxDocs;
    }
    if i :| 0 <= i < |sizes| && sizes[i] < maxDocs {
      assert i in leaves && f(i) < maxDocs;
    }
  }

  /** The slice that is still being filled at the end is closed, if it has a leaf. */
  lemma SliceDone(slices: seq<seq<nat>>, ords: seq<nat>, s: seq<nat>, docSum: nat, leaves: seq<nat>, sizes: seq<nat>,
                  maxDocs: int, maxSegments: nat, size: int)
    requires Partial(slices, ords, docSum, leaves, sizes, maxDocs, maxSegments, size)
    requires multiset(leaves) == multiset(seq(|sizes|, i => i)) && multiset(s) == multiset(ords) && Ascending(s)
    ensures var all := if ords == [] then slices else slices + [s];
      && multiset(Flat(all)) == multiset(seq(|sizes|, i => i))
      && (forall k :: 0 <= k < |all| ==> InLimits(all[k], sizes, maxDocs, maxSegments))
      && (SomeEmpty(all) <==> maxSegments == 0 && exists i :: 0 <= i < |sizes| && sizes[i] < maxDocs)
      && InOrder(all, SizeOf(sizes), maxDocs) && Full(all, SizeOf(sizes), maxDocs, maxSegments)
  {
    hide InLimits, Rising, InOrder, SomeEmpty, SomeSmall, Full, Filled, Filling, Total, Ascending;
    RisingLast(slices, ords, s, SizeOf(sizes), maxDocs);
    FilledLast(slices, ords, s, SizeOf(sizes), size, maxDocs, maxSegments);
    SmallLeaves(leaves, sizes, maxDocs);
    if ords == [] {
      assert Flat(slices) + [] == Flat(slices);
    } else {
      FillingFacts(ords, docSum, sizes, maxDocs, maxSegments);
      SortedInLimits(ords, s, sizes, maxDocs, maxSegments);
      PushSlice(slices, ords, [], s, leaves, leaves, sizes, maxDocs, maxSegments);
      EmptyPush(slices, s);
      assert Flat(slices + [s]) + [] == Flat(slices + [s]);
    }
  }

  /** `slice`: every leaf is in exactly one slice, slices of several leaves keep both limits, the slices
      rise in size, and they are as full as the limits allow. A slice is empty only for a limit of no
      segments at all. */
  method Slice(sizes: seq<nat>, maxDocs: int, maxSegments: nat) returns (slices: seq<seq<nat>>)
    ensures multiset(Flat(slices)) == multiset(seq(|sizes|, i => i))
    ensures forall k :: 0 <= k < |slices| ==> InLimits(slices[k], sizes, maxDocs, maxSegments)
    ensures SomeEmpty(slices) <==> maxSegments == 0 && exists i :: 0 <= i < |sizes| && sizes[i] < maxDocs
    ensures InOrder(slices, SizeOf(sizes), maxDocs) && Full(slices, SizeOf(sizes), maxDocs, maxSegments)
  {
    hide InLimits, InOrder, Full, Partial;
    slices := [];
    NothingSliced(sizes, maxDocs, maxSegments);
    if sizes == [] {
      SliceDone([], [], [], 0, [], sizes, maxDocs, maxSegments, 0);
      return;
    }
    var leaves := BySize(sizes);
    var docSum, ords: seq<nat> := 0, [];
    ghost var size := 0;
    for i := 0 to |leaves|
      invariant Partial(slices, ords, docSum, leaves[..i], sizes, maxDocs, maxSegments, size)
      invariant size == if i == 0 then 0 else SizeOf(sizes)(leaves[i - 1])
    {
      assert NoneAbove(leaves[..i], [leaves[i]], SizeOf(sizes));
      slices, ords, docSum :=
        SliceLeaf(slices, ords, docSum, leaves[i], sizes, maxDocs, maxSegments, leaves[..i], size);
      assert leaves[..i + 1] == leaves[..i] + [leaves[i]];
      size := SizeOf(sizes)(leaves[i]);
    }
    assert leaves[..|leaves|] == leaves;
    if ords != [] {
      var s := SortNumbers(ords);
      SliceDone(slices, ords, s, docSum, leaves, sizes, maxDocs, maxSegments, size);
      slices := slices + [s];
    } else {
      SliceDone(slices, ords, [], docSum, leaves, sizes, maxDocs, maxSegments, size);
    }
  }

  /** One leaf: a slice of its own if it is large, else the slice that is being filled, after that
      has been closed if it is full. */
  method SliceLeaf(slices0: seq<seq<nat>>, ords0: seq<nat>, docSum0: nat, leaf: nat, sizes: seq<nat>,
                   maxDocs: int, maxSegments: nat, ghost done: seq<nat>, ghost size: int)
      returns (slices: seq<seq<nat>>, ords: seq<nat>, docSum: nat)
    requires leaf < |sizes| && size <= sizes[leaf] && NoneAbove(done, [leaf], SizeOf(sizes))
    requires Partial(slices0, ords0, docSum0, done, sizes, maxDocs, maxSegments, size)
    ensures Partial(slices, ords, docSum, done + [leaf], sizes, maxDocs, maxSegments, sizes[leaf])
  {
    hide Partial, NoneAbove;
    slices, ords, docSum := slices0, ords0, docSum0;
    var maxDoc := sizes[leaf];
    if maxDoc >= maxDocs {
      LargeTaken(slices, ords, docSum, leaf, done, sizes, maxDocs, maxSegments, size);
      slices := slices + [[leaf]];
    } else {
      if docSum + maxDoc > maxDocs || |ords| >= maxSegments {
        var s := SortNumbers(ords);
        ClosedTaken(slices, ords, s, docSum, leaf, done, sizes, maxDocs, maxSegments, size);
        slices, ords, docSum := slices + [s], [], 0;
        assert [] + [leaf] == [leaf];
      } else {
        SmallTaken(slices, ords, docSum, leaf, done, sizes, maxDocs, maxSegments, size);
      }
      ords := ords + [leaf];
      docSum := docSum + maxDoc;
    }
  }

  /** With a limit of no segments two small leaves give an empty slice. The limits that the searcher
      itself passes, 250000 documents and 20 segments, exclude this. */
  method NoSegments() returns (slices: seq<seq<nat>>)
    ensures SomeEmpty(slices) && multiset(Flat(slices)) == multiset{0, 1}
  {
    var sizes: seq<nat> := [1, 1];
    slices := Slice(sizes, 10, 0);
    assert sizes[0] < 10;
    assert seq(|sizes|, i => i) == [0, 1];
  }

  const MAX_DOCS_PER_SLICE := 250_000
  const MAX_SEGMENTS_PER_SLICE := 20

  /** The slices of a searcher: none is empty. */
  method SearchSlices(sizes: seq<nat>) returns (slices: seq<seq<nat>>)
    ensures multiset(Flat(slices)) == multiset(seq(|sizes|, i => i)) && !SomeEmpty(slices)
    ensures forall k :: 0 <= k < |slices| ==> InLimits(slices[k], sizes, 250_000, 20)
    ensures InOrder(slices, SizeOf(sizes), 250_000) && Full(slices, SizeOf(sizes), 250_000, 20)
  {
    slices := Slice(sizes, MAX_DOCS_PER_SLICE, MAX_SEGMENTS_PER_SLICE);
  }

  // ----- counting in parallel -----

  /** The leaves each worker still has to search, the counts sent and not yet received, and the sum
      of those received. */
  datatype State = State(workers: seq<seq<nat>>, channel: seq<nat>, total: nat)

  /** The hits of every leaf; a leaf without a scorer has none, and nothing is sent for it. */
  datatype Leaves = Leaves(hits: seq<nat>, scored: seq<bool>) {
    ghost predicate Valid() {
      |hits| == |scored| && forall i :: 0 <= i < |hits| && !scored[i] ==> hits[i] == 0
    }

    ghost function Hits(): nat -> nat {
      (ord: nat) => if ord < |hits| then hits[ord] else 0
    }
  }

  ghost function Sum(s: seq<nat>): nat {
    Total(s, x => x)
  }

  ghost predicate Finished(s: State) {
    s.channel == [] && forall i :: 0 <= i < |s.workers| ==> s.workers[i] == []
  }

  /** Worker `i` searches its next leaf and sends the count; no other worker is touched. */
  ghost predicate Searches(leaves: Leaves, s: State, s': State, i: nat) {
    && i < |s.workers| && s.workers[i] != [] && s.workers[i][0] < |leaves.hits| == |leaves.scored|
       && s'.total == s.total
    && s'.workers == s.workers[i := s.workers[i][1..]]
    && s'.channel == if leaves.scored[s.workers[i][0]] then s.channel + [leaves.hits[s.workers[i][0]]] else s.channel
  }

  /** `finish_parallel` receives one count. */
  ghost predicate Receives(s: State, s': State) {
    s.channel != [] && s' == State(s.workers, s.channel[1..], s.total + s.channel[0])
  }

  ghost predicate Step(leaves: Leaves, s: State, s': State) {
    Receives(s, s') || exists i :: Searches(leaves, s, s', i)
  }

  ghost predicate Run(leaves: Leaves, states: seq<State>) {
    |states| > 0 && forall k :: 0 < k < |states| ==> StepTo(leaves, states, k)
  }

  ghost predicate StepTo(leaves: Leaves, states: seq<State>, k: nat) {
    0 < k < |states| && Step(leaves, states[k - 1], states[k])
  }

  /** Hits counted, on their way or still to be found. */
  ghost function Worth(leaves: Leaves, s: State): nat {
    s.total + Sum(s.channel) + Total(Flat(s.workers), leaves.Hits())
  }

  lemma {:induction false} FlatWithout(workers: seq<seq<nat>>, i: nat, f: nat -> nat)
    requires i < |workers| && workers[i] != []
    ensures Total(Flat(workers), f) == Total(Flat(workers[i := workers[i][1..]]), f) + f(workers[i][0])
    decreases |workers|
  {
    var n := |workers| - 1;
    var less := workers[i := workers[i][1..]];
    TotalConcat(Flat(workers[..n]), workers[n], f);
    TotalConcat(Flat(less[..n]), less[n], f);
    if i == n {
      assert less[..n] == workers[..n];
      assert workers[n] == [workers[n][0]] + less[n];
      TotalConcat([workers[n][0]], less[n], f);
      TotalOne(workers[n][0], f);
    } else {
      assert less[..n] == workers[..n][i := workers[i][1..]];
      FlatWithout(workers[..n], i, f);
    }
  }

  /** No step loses or invents a hit. */
  lemma StepKeepsWorth(leaves: Leaves, s: State, s': State)
    requires leaves.Valid() && Step(leaves, s, s')
    ensures Worth(leaves, s') == Worth(leaves, s)
  {
    if Receives(s, s') {
      assert s.channel == [s.channel[0]] + s'.channel;
      TotalConcat([s.channel[0]], s'.channel, x => x);
      TotalOne(s.channel[0], x => x);
    } else {
      var i: nat :| Searches(leaves, s, s', i);
      var ord := s.workers[i][0];
      FlatWithout(s.workers, i, leaves.Hits());
      TotalConcat(s.channel, [leaves.hits[ord]], x => x);
      TotalOne(leaves.hits[ord], x => x);
    }
  }

  lemma {:induction false} RunKeepsWorth(leaves: Leaves, states: seq<State>, k: nat)
    requires leaves.Valid() && Run(leaves, states) && k < |states|
    ensures Worth(leaves, states[k]) == Worth(leaves, states[0])
  {
    if k > 0 {
      RunKeepsWorth(leaves, states, k - 1);
      assert StepTo(leaves, states, k);
      StepKeepsWorth(leaves, states[k - 1], states[k]);
    }
  }

  lemma {:induction false} FlatNothing(workers: seq<seq<nat>>)
    requires forall i :: 0 <= i < |workers| ==> workers[i] == []
    ensures Flat(workers) == []
  {
    if workers != [] { FlatNothing(workers[..|workers| - 1]); }
  }

  /** However the workers and the receiver interleave, a run that is over has counted what a search of
      one leaf after the other counts. */
  lemma ParallelCount(leaves: Leaves, slices: seq<seq<nat>>, states: seq<State>)
    requires leaves.Valid() && multiset(Flat(slices)) == multiset(seq(|leaves.hits|, i => i))
    requires Run(leaves, states) && states[0] == State(slices, [], 0) && Finished(states[|states| - 1])
    ensures states[|states| - 1].total == Sum(leaves.hits)
  {
    var n, last, all := |leaves.hits|, states[|states| - 1], seq(|leaves.hits|, i => i);
    RunKeepsWorth(leaves, states, |states| - 1);
    FlatNothing(last.workers);
    TotalPermuted(Flat(slices), all, leaves.Hits());
    HitsInOrder(leaves, n, all);
    assert leaves.hits[..n] == leaves.hits && all[..n] == all;
  }

  lemma {:induction false} HitsInOrder(leaves: Leaves, n: nat, all: seq<nat>)
    requires n <= |all| == |leaves.hits| && forall i :: 0 <= i < |all| ==> all[i] == i
    ensures Total(all[..n], leaves.Hits()) == Sum(leaves.hits[..n])
  {
    if n > 0 {
      HitsInOrder(leaves, n - 1, all);
      assert all[..n][..n - 1] == all[..n - 1] && leaves.hits[..n][..n - 1] == leaves.hits[..n - 1];
    }
  }

  /** A run that is not over can go on, and every step brings it nearer to its end. */
  lemma Progress(leaves: Leaves, s: State)
    requires leaves.Valid() && forall i :: 0 <= i < |s.workers| ==> forall k :: 0 <= k < |s.workers[i]| ==>
      s.workers[i][k] < |leaves.hits|
    ensures Finished(s) || exists s' :: Step(leaves, s, s')
  {
    if s.channel != [] {
      assert Receives(s, State(s.workers, s.channel[1..], s.total + s.channel[0]));
      assert Step(leaves, s, State(s.workers, s.channel[1..], s.total + s.channel[0]));
    } else if !Finished(s) {
      var i: nat :| i < |s.workers| && s.workers[i] != [];
      var ord := s.workers[i][0];
      var s' := State(s.workers[i := s.workers[i][1..]], if leaves.scored[ord] then s.channel + [leaves.hits[ord]]
        else s.channel, s.total);
      assert Searches(leaves, s, s', i);
      assert Step(leaves, s, s');
    }
  }

  lemma StepShortens(leaves: Leaves, s: State, s': State)
    requires Step(leaves, s, s')
    ensures 2 * |Flat(s'.workers)| + |s'.channel| < 2 * |Flat(s.workers)| + |s.channel|
  {
    if !Receives(s, s') {
      var i: nat :| Searches(leaves, s, s', i);
      FlatShorter(s.workers, i);
    }
  }

  lemma {:induction false} FlatShorter(workers: seq<seq<nat>>, i: nat)
    requires i < |workers| && workers[i] != []
    ensures |Flat(workers)| == |Flat(workers[i := workers[i][1..]])| + 1
    decreases |workers|
  {
    var n := |workers| - 1;
    var less := workers[i := workers[i][1..]];
    if i == n {
      assert less[..n] == workers[..n];
    } else {
      assert less[..n] == workers[..n][i := workers[i][1..]];
      FlatShorter(workers[..n], i);
    }
  }
}
