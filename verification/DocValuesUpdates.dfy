/** In-place updates of numeric doc values (doc_values_writer.rs): collected in a growing store,
    sorted by document, and iterated; the last update added to a document is the one that counts. */
module DocValuesUpdates {
  import opened Sorter
  import opened FixedBitSet
  import opened Wrappers

  /** An update: the new value of a document. */
  datatype Update = Update(doc: nat, value: int)

  ghost function ByDoc(): Update -> int {
    (u: Update) => u.doc
  }

  // ---------------------------------------------------------------------------------------------
  // What a list of updates means

  /** The values of the documents after the updates were made one after the other. */
  ghost function Applied(s: seq<Update>): map<nat, int> {
    if s == [] then map[] else map[s[0].doc := s[0].value] + Applied(s[1..])
  }

  lemma MergeAssociative(a: map<nat, int>, b: map<nat, int>, c: map<nat, int>)
    ensures a + (b + c) == (a + b) + c
  {
  }

  lemma {:induction false} AppliedConcat(s: seq<Update>, t: seq<Update>)
    ensures Applied(s + t) == Applied(s) + Applied(t)
  {
    if s == [] {
      assert s + t == t;
    } else {
      AppliedConcat(s[1..], t);
      var u, first := s + t, map[s[0].doc := s[0].value];
      assert u[1..] == s[1..] + t && u[0] == s[0];
      MergeAssociative(first, Applied(s[1..]), Applied(t));
    }
  }

  lemma AppliedAdded(s: seq<Update>, doc: nat, value: int)
    ensures Applied(s + [Update(doc, value)]) == Applied(s)[doc := value]
  {
    AppliedConcat(s, [Update(doc, value)]);
    assert Applied([Update(doc, value)]) == map[doc := value];
  }

  lemma {:induction false} AppliedDocs(s: seq<Update>, d: nat)
    ensures d in Applied(s) <==> exists k :: 0 <= k < |s| && s[k].doc == d
  {
    if s != [] {
      var rest := s[1..];
      AppliedDocs(rest, d);
      assert forall k :: 0 <= k < |rest| ==> rest[k] == s[k + 1];
      assert forall k :: 0 < k < |s| ==> s[k] == rest[k - 1];
    }
  }

  /** Element `i` is the last one of its document. */
  ghost predicate LastOfDoc(s: seq<Update>, i: nat) {
    i < |s| && forall k :: i < k < |s| ==> s[k].doc != s[i].doc
  }

  lemma {:induction false} AppliedLast(s: seq<Update>, i: nat)
    requires LastOfDoc(s, i)
    ensures s[i].doc in Applied(s) && Applied(s)[s[i].doc] == s[i].value
  {
    var rest := s[1..];
    if i == 0 {
      AppliedDocs(rest, s[0].doc);
      assert forall k :: 0 <= k < |rest| ==> rest[k] == s[k + 1];
    } else {
      AppliedLast(rest, i - 1);
    }
  }

  lemma FilterLast(s: seq<Update>, i: nat)
    requires LastOfDoc(s, i)
    ensures var f := Filter(s, ByDoc(), s[i].doc); f != [] && f[|f| - 1] == s[i]
  {
    var d, front, rest := s[i].doc, s[..i], s[i + 1..];
    assert s[..i + 1] == front + [s[i]];
    FilterConcat(front, [s[i]], ByDoc(), d, s[..i + 1]);
    assert s == s[..i + 1] + rest;
    FilterConcat(s[..i + 1], rest, ByDoc(), d, s);
    FilterNone(rest, ByDoc(), d);
  }

  lemma {:induction false} FindLast(s: seq<Update>, d: nat, n: nat) returns (j: nat)
    requires n <= |s| && (exists k :: 0 <= k < n && s[k].doc == d)
    requires forall k :: n <= k < |s| ==> s[k].doc != d
    ensures LastOfDoc(s, j) && s[j].doc == d
  {
    if s[n - 1].doc == d {
      j := n - 1;
    } else {
      j := FindLast(s, d, n - 1);
    }
  }

  lemma {:induction false} FilterFound(s: seq<Update>, d: int)
    requires Filter(s, ByDoc(), d) != []
    ensures exists k :: 0 <= k < |s| && s[k].doc == d
  {
    if s[0].doc != d {
      FilterFound(s[1..], d);
      var k :| 0 <= k < |s| - 1 && s[1..][k].doc == d;
      assert s[k + 1].doc == d;
    }
  }

  /** After a stable sort the last update of a document is still the one that was added last. */
  lemma LatestWins(s: seq<Update>, t: seq<Update>, i: nat) returns (j: nat)
    requires Stable(s, t, ByDoc()) && LastOfDoc(t, i)
    ensures LastOfDoc(s, j) && s[j] == t[i]
  {
    var d := t[i].doc;
    FilterLast(t, i);
    assert Filter(s, ByDoc(), d) == Filter(t, ByDoc(), d);
    FilterFound(s, d);
    j := FindLast(s, d, |s|);
    FilterLast(s, j);
  }

  /** Every last update of a document in `t` is one in `s`. */
  ghost predicate SameLasts(s: seq<Update>, t: seq<Update>) {
    forall i: nat :: LastOfDoc(t, i) ==> exists j: nat :: LastOfDoc(s, j) && s[j] == t[i]
  }

  lemma LastsKept(s: seq<Update>, t: seq<Update>)
    requires Stable(s, t, ByDoc())
    ensures SameLasts(s, t)
  {
    forall i: nat | LastOfDoc(t, i) ensures exists j: nat :: LastOfDoc(s, j) && s[j] == t[i] {
      var j := LatestWins(s, t, i);
    }
  }

  lemma AppliedWithin(s: seq<Update>, t: seq<Update>, d: nat)
    requires Stable(s, t, ByDoc()) && d in Applied(t)
    ensures d in Applied(s) && Applied(s)[d] == Applied(t)[d]
  {
    AppliedDocs(t, d);
    var i := FindLast(t, d, |t|);
    var j := LatestWins(s, t, i);
    AppliedLast(t, i);
    AppliedLast(s, j);
  }

  /** A stable sort keeps the meaning of the updates. */
  lemma AppliedStable(s: seq<Update>, t: seq<Update>)
    requires Stable(s, t, ByDoc())
    ensures Applied(s) == Applied(t)
  {
    forall d: nat ensures d in Applied(s) <==> d in Applied(t)
      ensures d in Applied(t) ==> Applied(s)[d] == Applied(t)[d]
    {
      assert Stable(t, s, ByDoc());
      if d in Applied(t) {
        AppliedWithin(s, t, d);
      }
      if d in Applied(s) {
        AppliedWithin(t, s, d);
      }
    }
  }

  // ---------------------------------------------------------------------------------------------
  // The sort

  /** A sort of the front that is stable on the whole list is stable on the front. */
  lemma StableFront(s: seq<Update>, t: seq<Update>, n: nat)
    requires n <= |s| == |t| && Stable(s, t, ByDoc()) && s[n..] == t[n..]
    ensures Stable(s[..n], t[..n], ByDoc())
  {
    forall r ensures Filter(s[..n], ByDoc(), r) == Filter(t[..n], ByDoc(), r) {
      var front, other, rest := Filter(s[..n], ByDoc(), r), Filter(t[..n], ByDoc(), r), Filter(s[n..], ByDoc(), r);
      assert s == s[..n] + s[n..] && t == t[..n] + t[n..];
      FilterConcat(s[..n], s[n..], ByDoc(), r, s);
      FilterConcat(t[..n], t[n..], ByDoc(), r, t);
      assert front + rest == other + rest;
      assert |front| == |other|;
      assert front == (front + rest)[..|front|] && other == (other + rest)[..|front|];
    }
  }

  /** Sorts the first `size` updates of a store by document. The last one of every document is the
      last one added, so the meaning stays; what lies behind the updates is not touched. */
  method SortUpdates(a: array<Update>, size: nat)
    requires size <= a.Length
    modifies a
    ensures Sorted(a[..], ByDoc(), 0, size) && a[size..] == old(a[size..])
    ensures multiset(a[..size]) == multiset(old(a[..size]))
    ensures SameLasts(old(a[..size]), a[..size])
    ensures Applied(a[..size]) == old(Applied(a[..size]))
  {
    hide Applied, LastOfDoc, SameLasts, Filter, Stable;
    ghost var s := a[..];
    MergeSort(a, (x: Update, y: Update) => x.doc < y.doc, ByDoc(), set u | u in a[..], 0, size);
    ghost var t := a[..];
    assert a[..size] == t[..size] && old(a[..size]) == s[..size];
    assert a[size..] == t[size..] && old(a[size..]) == s[size..];
    PermutedPart(s, t, size);
    StableFront(s, t, size);
    AppliedStable(s[..size], t[..size]);
    LastsKept(s[..size], t[..size]);
  }

  // ---------------------------------------------------------------------------------------------
  // The iteration

  /** The last entry of every run of equal documents. */
  ghost function Kept(s: seq<Update>): seq<Update> {
    if s == [] then []
    else if |s| > 1 && s[1].doc == s[0].doc then Kept(s[1..])
    else [s[0]] + Kept(s[1..])
  }

  /** `out` lists the map: every key once, in rising order, with its value. */
  ghost predicate Enumerates(out: seq<Update>, m: map<nat, int>) {
    Strict(out) && Valued(out, m) && Covers(out, m)
  }

  ghost predicate Strict(out: seq<Update>) {
    forall i, j :: 0 <= i < j < |out| ==> out[i].doc < out[j].doc
  }

  ghost predicate Valued(out: seq<Update>, m: map<nat, int>) {
    forall k :: 0 <= k < |out| ==> out[k].doc in m && m[out[k].doc] == out[k].value
  }

  ghost predicate Covers(out: seq<Update>, m: map<nat, int>) {
    forall d :: d in m ==> exists k :: 0 <= k < |out| && out[k].doc == d
  }

  ghost predicate Ascending(s: seq<Update>) {
    forall i, j :: 0 <= i < j < |s| ==> s[i].doc <= s[j].doc
  }

  lemma StrictFirst(u: Update, out: seq<Update>, all: seq<Update>)
    requires Strict(out) && all == [u] + out && forall k :: 0 <= k < |out| ==> u.doc < out[k].doc
    ensures Strict(all)
  {
    forall i, j | 0 <= i < j < |all| ensures all[i].doc < all[j].doc {
      assert all[j] == out[j - 1] && (i > 0 ==> all[i] == out[i - 1]);
    }
  }

  lemma ValuedFirst(u: Update, out: seq<Update>, all: seq<Update>, m: map<nat, int>, sum: map<nat, int>)
    requires Valued(out, m) && all == [u] + out && sum == map[u.doc := u.value] + m && u.doc !in m
    ensures Valued(all, sum)
  {
    forall k | 0 <= k < |all| ensures all[k].doc in sum && sum[all[k].doc] == all[k].value {
      assert k > 0 ==> all[k] == out[k - 1];
    }
  }

  lemma CoversFirst(u: Update, out: seq<Update>, all: seq<Update>, m: map<nat, int>, sum: map<nat, int>)
    requires Covers(out, m) && all == [u] + out && sum == map[u.doc := u.value] + m
    ensures Covers(all, sum)
  {
    forall d | d in sum ensures exists k :: 0 <= k < |all| && all[k].doc == d {
      if d in m {
        var k :| 0 <= k < |out| && out[k].doc == d;
        assert all[k + 1].doc == d;
      } else {
        assert all[0].doc == d;
      }
    }
  }

  lemma EnumeratesFirst(u: Update, out: seq<Update>, m: map<nat, int>)
    requires Enumerates(out, m) && forall d :: d in m ==> u.doc < d
    ensures Enumerates([u] + out, map[u.doc := u.value] + m)
  {
    var all, sum := [u] + out, map[u.doc := u.value] + m;
    StrictFirst(u, out, all);
    ValuedFirst(u, out, all, m, sum);
    CoversFirst(u, out, all, m, sum);
  }

  lemma NothingKept()
    ensures Enumerates(Kept([]), Applied([]))
  {
  }

  /** Of sorted updates, the entries kept are exactly the documents with their last values. */
  lemma {:induction false} KeptEnumerates(s: seq<Update>)
    requires Ascending(s)
    ensures Enumerates(Kept(s), Applied(s))
  {
    hide Enumerates;
    if s == [] {
      NothingKept();
    } else {
      var rest := s[1..];
      assert forall k :: 0 <= k < |rest| ==> rest[k] == s[k + 1];
      KeptEnumerates(rest);
      AppliedDocs(rest, s[0].doc);
      if |s| > 1 && s[1].doc == s[0].doc {
        assert rest[0].doc == s[0].doc;
        assert Applied(s) == Applied(rest);
      } else {
        forall d | d in Applied(rest) ensures s[0].doc < d {
          AppliedDocs(rest, d);
        }
        EnumeratesFirst(s[0], Kept(rest), Applied(rest));
      }
    }
  }

  /** What a call of `next_doc` gives: an entry, the end, or a read behind the end of the store. */
  datatype Read = Entry(update: Update) | NoMore | OutOfStore

  /** The slot behind the updates of a store, if there is one. */
  ghost function Behind(updates: seq<Update>, size: nat): Option<Update> {
    if size < |updates| then Some(updates[size]) else None
  }

  /** The `i`-th read, where `docs` are the documents to return. The test for the end is one step
      late: behind the last document comes the slot after the updates, whatever it holds. */
  ghost function NthRead(docs: seq<Update>, behind: Option<Update>, i: nat): Read {
    if i < |docs| then Entry(docs[i])
    else if behind.None? then OutOfStore
    else if i == |docs| then Entry(behind.value)
    else NoMore
  }

  /** What a caller takes for the end: the document `NO_MORE_DOCS`. */
  ghost predicate TakenForEnd(r: Read) {
    r.NoMore? || (r.Entry? && r.update.doc == NO_MORE_DOCS)
  }

  /** The iteration ends right behind the last document exactly if there is a slot behind the
      updates and it holds the document `NO_MORE_DOCS`. */
  lemma CleanEnd(updates: seq<Update>, size: nat, docs: seq<Update>)
    requires size <= |updates|
    ensures (forall i: nat :: i >= |docs| ==> TakenForEnd(NthRead(docs, Behind(updates, size), i)))
      <==> size < |updates| && updates[size].doc == NO_MORE_DOCS
  {
    var behind := Behind(updates, size);
    if forall i: nat :: i >= |docs| ==> TakenForEnd(NthRead(docs, behind, i)) {
      assert TakenForEnd(NthRead(docs, behind, |docs|));
    }
  }

  lemma KeptRun(s: seq<Update>, i: nat, size: nat)
    requires i < size <= |s|
    ensures i + 1 < size && s[i + 1].doc == s[i].doc ==> Kept(s[i..size]) == Kept(s[i + 1..size])
    ensures !(i + 1 < size && s[i + 1].doc == s[i].doc) ==> Kept(s[i..size]) == [s[i]] + Kept(s[i + 1..size])
  {
    var t := s[i..size];
    assert t[1..] == s[i + 1..size];
    assert t[0] == s[i] && (|t| > 1 ==> t[1] == s[i + 1]);
  }

  lemma RunEnds(s: seq<Update>, idx: nat, size: nat)
    requires 0 < idx <= size <= |s| && Ascending(s[..size])
    requires idx < size ==> s[idx].doc != s[idx - 1].doc
    ensures LastOfDoc(s[..size], idx - 1)
  {
    var t := s[..size];
    forall k | idx - 1 < k < |t| ensures t[k].doc != t[idx - 1].doc {
      assert t[idx - 1].doc <= t[idx].doc && (idx < k ==> t[idx].doc <= t[k].doc);
    }
  }

  /** The iterator over sorted updates. The store may be longer than the number of updates. */
  class UpdatesIterator {
    const updates: seq<Update>
    const size: nat
    var idx: nat
    var doc: int
    var value: Option<int>

    ghost predicate Valid() {
      size <= |updates| && Ascending(updates[..size])
    }

    constructor (updates: seq<Update>, size: nat)
      requires size <= |updates| && Ascending(updates[..size])
      ensures Valid() && idx == 0 && doc == -1 && value == None && this.updates == updates && this.size == size
    {
      this.updates, this.size := updates, size;
      idx, doc, value := 0, -1, None;
    }

    /** `next_doc`: the next document with its last update, as long as there is one; then one slot
        more, if the store has it; then the end. */
    method NextDoc() returns (r: Read)
      requires Valid()
      modifies this
      ensures r.Entry? ==> doc == r.update.doc && value == Some(r.update.value)
      ensures old(idx) < size ==> old(idx) < idx <= size && LastOfDoc(updates[..size], idx - 1)
      ensures old(idx) < size ==> r == Entry(updates[idx - 1]) && r.update.doc == updates[old(idx)].doc
      ensures old(idx) < size ==> Kept(updates[old(idx)..size]) == [r.update] + Kept(updates[idx..size])
      ensures old(idx) == size < |updates| ==> idx == size + 1 && r == Entry(updates[size])
      ensures old(idx) == size == |updates| ==> r == OutOfStore && unchanged(this)
      ensures old(idx) > size ==> idx == old(idx) && r == NoMore && doc == NO_MORE_DOCS && value == None
    {
      hide Kept, Applied, Ascending, LastOfDoc;
      if idx > size {
        value := None;
        doc := NO_MORE_DOCS;
        return NoMore;
      }
      if idx >= |updates| {
        return OutOfStore;
      }
      doc := updates[idx].doc;
      ghost var from := idx;
      idx := idx + 1;
      while idx < size && updates[idx].doc == doc
        invariant from < idx && (from < size ==> idx <= size) && (from == size ==> idx == size + 1)
        invariant doc == updates[from].doc == updates[idx - 1].doc
        invariant from < size ==> Kept(updates[from..size]) == Kept(updates[idx - 1..size])
      {
        KeptRun(updates, idx - 1, size);
        idx := idx + 1;
      }
      value := Some(updates[idx - 1].value);
      r := Entry(Update(doc, updates[idx - 1].value));
      if from < size {
        KeptRun(updates, idx - 1, size);
        RunEnds(updates, idx, size);
      }
    }
  }

  lemma {:induction false} KeptSome(s: seq<Update>)
    ensures s != [] <==> Kept(s) != []
  {
    if |s| > 1 {
      KeptSome(s[1..]);
    }
  }

  lemma KeptStep(s: seq<Update>, from: nat, idx: nat, size: nat, kept: seq<Update>, n: nat)
    requires from < idx <= size <= |s| && n < |kept| && kept[n..] == Kept(s[from..size])
    requires Kept(s[from..size]) == [s[idx - 1]] + Kept(s[idx..size])
    ensures kept[n] == s[idx - 1] && kept[n + 1..] == Kept(s[idx..size])
    ensures idx < size <==> n + 1 < |kept|
  {
    assert kept[n] == kept[n..][0] && kept[n + 1..] == kept[n..][1..];
    KeptSome(s[idx..size]);
  }

  /** The whole run of a fresh iterator, for any number of calls: the documents, then the slot
      behind them, then the end for ever, or else reads outside the store. */
  method ReadAll(it: UpdatesIterator, n: nat) returns (seen: seq<Read>)
    requires it.Valid() && it.idx == 0
    modifies it
    ensures |seen| == n && forall i :: 0 <= i < n ==>
      seen[i] == NthRead(Kept(it.updates[..it.size]), Behind(it.updates, it.size), i)
    ensures Enumerates(Kept(it.updates[..it.size]), Applied(it.updates[..it.size]))
  {
    hide Kept, Applied, Enumerates, Ascending, LastOfDoc;
    seen := [];
    ghost var s, size := it.updates, it.size;
    ghost var kept := Kept(s[..size]);
    KeptEnumerates(s[..size]);
    assert s[0..size] == s[..size] && kept[0..] == kept;
    KeptSome(s[..size]);
    while |seen| < n
      invariant |seen| <= n && forall i :: 0 <= i < |seen| ==>
        seen[i] == NthRead(kept, Behind(s, size), i)
      invariant it.idx < size ==> |seen| < |kept| && kept[|seen|..] == Kept(s[it.idx..size])
      invariant it.idx == size < |s| ==> |seen| == |kept|
      invariant it.idx == size == |s| ==> |seen| >= |kept|
      invariant it.idx > size ==> size < |s| && |seen| > |kept|
    {
      ghost var from := it.idx;
      var r := it.NextDoc();
      if from < size {
        KeptStep(s, from, it.idx, size, kept, |seen|);
      }
      seen := seen + [r];
    }
  }

  /** One update of document 5 in a store with a free slot: document 0 with value 0 comes after it. */
  method FreeSlotReturned() returns (seen: seq<Read>)
    ensures seen == [Entry(Update(5, 7)), Entry(Update(0, 0)), NoMore]
    ensures Applied([Update(5, 7)]) == map[5 := 7]
  {
    var s := [Update(5, 7), Update(0, 0)];
    assert s[..1] == [Update(5, 7)];
    var it := new UpdatesIterator(s, 1);
    seen := ReadAll(it, 3);
    assert Kept(s[..1]) == [Update(5, 7)];
  }

  // ---------------------------------------------------------------------------------------------
  // The store

  const MAX_UPDATES: nat := 0x7fff_ffff

  const ZERO := Update(0, 0)

  /** The length of a store that has grown to take `minSize` updates. */
  ghost function GrownSize(minSize: nat): nat {
    if minSize < 24 then minSize + 3 else minSize + minSize / 8
  }

  /** The updates of a field. The columns of documents and of values grow together, so they are one
      array of updates here. */
  class FieldUpdates {
    var store: array<Update>
    var size: nat

    ghost predicate Valid()
      reads this, store
    {
      size <= store.Length && forall i :: size <= i < store.Length ==> store[i] == ZERO
    }

    /** The values of the documents that were updated. */
    ghost function Contents(): map<nat, int>
      requires Valid()
      reads this, store
    {
      Applied(store[..size])
    }

    constructor ()
      ensures Valid() && fresh(store) && Contents() == map[] && size == 0 && store.Length == 1
    {
      store := new Update[1](_ => ZERO);
      size := 0;
    }

    /** `grow_by_size`: room for `minSize` updates and an eighth more, at least three. */
    method Grow(minSize: nat)
      requires Valid() && size <= minSize
      modifies this
      ensures Valid() && fresh(store) && size == old(size) && store[..size] == old(store[..size])
      ensures store.Length == GrownSize(minSize)
    {
      var extra := if minSize / 8 < 3 then 3 else minSize / 8;
      var larger := new Update[minSize + extra](_ => ZERO);
      forall i | 0 <= i < size {
        larger[i] := store[i];
      }
      store := larger;
    }

    /** `add`: the document has the value from now on; refused only when the store can take no more. */
    method Add(doc: nat, value: int) returns (ok: bool)
      requires Valid()
      modifies this, store
      ensures Valid() && (store == old(store) || fresh(store))
      ensures ok <==> old(size) != MAX_UPDATES
      ensures ok ==> size == old(size) + 1 && Contents() == old(Contents())[doc := value]
      ensures ok ==> store.Length == if old(size < store.Length) then old(store.Length) else GrownSize(size)
      ensures !ok ==> size == old(size) && Contents() == old(Contents())
    {
      hide Applied;
      if size == MAX_UPDATES {
        return false;
      }
      ghost var before := store[..size];
      if store.Length == size {
        Grow(size + 1);
      }
      store[size] := Update(doc, value);
      size := size + 1;
      assert store[..size] == before + [Update(doc, value)];
      AppliedAdded(before, doc, value);
      return true;
    }

    /** `merge`: the other updates are made after those already there. */
    method Merge(other: FieldUpdates) returns (ok: bool)
      requires Valid() && other.Valid() && other != this && other.store != store
      modifies this
      ensures Valid() && (store == old(store) || fresh(store))
      ensures ok <==> other.size + old(size) <= MAX_UPDATES
      ensures ok ==> size == old(size) + other.size && Contents() == old(Contents()) + other.Contents()
      ensures ok ==> store.Length == GrownSize(size)
      ensures !ok ==> size == old(size) && Contents() == old(Contents())
    {
      if other.size + size > MAX_UPDATES {
        return false;
      }
      ghost var before := store[..size];
      Grow(size + other.size);
      var i := 0;
      while i < other.size
        invariant i <= other.size && size == |before| + i && fresh(store) && Valid()
        invariant |before| + other.size <= store.Length == GrownSize(|before| + other.size)
        invariant store[..size] == before + other.store[..i]
      {
        store[size] := other.store[i];
        size := size + 1;
        i := i + 1;
        assert other.store[..i] == other.store[..i - 1] + [other.store[i - 1]];
      }
      AppliedConcat(before, other.store[..i]);
      return true;
    }

    /** `iterator`: sorts the updates and starts at the first; nothing changes in what they mean. */
    method Iterator() returns (it: UpdatesIterator)
      requires Valid()
      modifies store
      ensures Valid() && Contents() == old(Contents()) && fresh(it) && it.Valid() && it.idx == 0
      ensures it.updates == store[..] && it.size == size
    {
      SortUpdates(store, size);
      ghost var tail := store[size..];
      assert forall i :: size <= i < store.Length ==> store[i] == tail[i - size];
      it := new UpdatesIterator(store[..], size);
    }

    /** Iterating over any updates, however they were added and merged: every updated document once,
        in rising order, with its last value. Then it goes wrong: document 0 with value 0 comes
        next, or the read leaves the store if that is full; the end is never met cleanly. */
    method ReadBack(n: nat) returns (seen: seq<Read>, ghost docs: seq<Update>)
      requires Valid()
      modifies store
      ensures Valid() && Contents() == old(Contents()) && Enumerates(docs, Contents())
      ensures |seen| == n && forall i :: 0 <= i < n ==>
        seen[i] == NthRead(docs, if size == store.Length then None else Some(ZERO), i)
      ensures n > |docs| ==> !TakenForEnd(seen[|docs|])
    {
      var it := Iterator();
      docs := Kept(store[..size]);
      assert it.updates[..it.size] == store[..size];
      seen := ReadAll(it, n);
    }
  }
}
